// The Launcher and Principal lifecycle as a protocol (launcher_lifecycle.go,
// app.go, the admission gate of operation.go): the holder of lifecycleMu moves
// one small step at a time, and Session resolution, Operation admission and
// Operation completion happen between any two of them.
module Lifecycle {

  datatype Row = Row(owner: int, enabled: bool)

  datatype Op = Op(launcher: string, running: bool)

  /** What the lock holder is doing; the deletes are the checked ones. */
  datatype Goal =
    | DeleteLauncher(launcher: string)
    | DeletePrincipal(principal: int)
    | DisableLauncher(launcher: string)
    | DisablePrincipal(principal: int)
    | EnableLauncher(launcher: string)
    | EnablePrincipal(principal: int)

  datatype Phase =
    | Idle
    | Quiescing(goal: Goal, targets: seq<string>, done: nat)
    | Inspecting(goal: Goal, targets: seq<string>, done: nat)
    | Polling(goal: Goal, targets: seq<string>, done: nat, candidates: set<string>)
    | Consulting(goal: Goal, targets: seq<string>, done: nat)
    | Cleaning(goal: Goal, targets: seq<string>, done: nat)
    | Disabling(goal: Goal, targets: seq<string>, done: nat)
    | Removing(goal: Goal, targets: seq<string>)
    | Committing(goal: Goal, targets: seq<string>)
    | Applying(admissions: seq<(string, bool)>)
    | Restoring(rest: seq<string>)

  datatype State = State(
    principals: map<int, bool>,        // enabled
    launchers: map<string, Row>,
    sessions: map<string, string>,     // Session to Launcher
    quiesced: set<string>,
    ops: map<string, Op>,
    requests: map<string, string>,     // in-flight requests with their resolved Launcher
    used: set<string>,                 // every Launcher ID this daemon has known
    phase: Phase,
    missed: set<string>,               // closed when the daemon started or born closed, not settled since
    stuck: set<string>)                // left quiesced by a failed re-read or an unreported enable, not settled since

  /** A durable change that committed, that failed, or that committed although an error came back. */
  datatype Outcome = Committed | Failed | Unknown

  datatype Event =
    // at any time
    | Resolve(request: string, session: string)
    | Admit(request: string, op: string)
    | Complete(op: string)
    | EndSession(session: string)
    | Restart
    // with lifecycleMu, in one critical section
    | CreateSession(session: string, launcher: string)
    | CreatePrincipal(principal: int, launcher: string)
    | CreateLauncher(launcher: string, principal: int)
    // the steps of one lock holder
    | Begin(goal: Goal, targets: seq<string>)
    | Quiesce
    | Snapshot
    | Poll(op: string)
    | Consult(quiet: bool)
    | Clean(ok: bool)
    | Disable(outcome: Outcome)
    | Remove(outcome: Outcome)
    | Commit(outcome: Outcome, children: seq<string>)
    | Apply
    | Restore(ok: bool)
    | Advance

  // ------------------------------------------------------ durable state

  /** effectiveLauncherClosed: no row, or either authority disabled. */
  predicate Closed(s: State, l: string) {
    l !in s.launchers || !s.launchers[l].enabled ||
    (s.launchers[l].owner in s.principals && !s.principals[s.launchers[l].owner])
  }

  ghost predicate Children(s: State, p: int, ls: seq<string>) {
    (forall l :: l in ls <==> l in s.launchers && s.launchers[l].owner == p)
  }

  function WithoutSessionsOf(s: State, ls: set<string>): map<string, string> {
    map x | x in s.sessions && s.sessions[x] !in ls :: s.sessions[x]
  }

  /** persistLauncherChange with enabled=false. */
  function Disabled(s: State, l: string): State {
    if l in s.launchers
    then s.(launchers := s.launchers[l := s.launchers[l].(enabled := false)], sessions := WithoutSessionsOf(s, {l}))
    else s
  }

  function Owned(s: State, p: int): set<string> { set l | l in s.launchers && s.launchers[l].owner == p }

  /** persistPrincipalEnabledChange. */
  function PrincipalSet(s: State, p: int, enabled: bool): State {
    if p !in s.principals || s.principals[p] == enabled then s
    else if enabled then s.(principals := s.principals[p := true])
    else s.(principals := s.principals[p := false], sessions := WithoutSessionsOf(s, Owned(s, p)))
  }

  /** deleteLauncherRow; a referencing Session would make the foreign key refuse it. */
  function RowRemoved(s: State, l: string): State {
    if exists x | x in s.sessions :: s.sessions[x] == l then s else s.(launchers := s.launchers - {l})
  }

  /** deletePrincipal, with the foreign-key cascade. */
  function PrincipalRemoved(s: State, p: int): State {
    s.(principals := s.principals - {p}, launchers := s.launchers - Owned(s, p),
        sessions := WithoutSessionsOf(s, Owned(s, p)))
  }

  // --------------------------------------------------------- transitions

  predicate Deletes(g: Goal) { g.DeleteLauncher? || g.DeletePrincipal? }

  predicate Enables(g: Goal) { g.EnableLauncher? || g.EnablePrincipal? }

  /** The Launchers a lock holder works through. */
  ghost predicate TargetsOf(s: State, g: Goal, targets: seq<string>) {
    match g
    case DeleteLauncher(l) => targets == [l] && l in s.used
    case DeletePrincipal(p) => p in s.principals && Children(s, p, targets)
    case DisableLauncher(l) => targets == [l] && l in s.launchers
    case DisablePrincipal(p) => p in s.principals && Children(s, p, targets)
    case EnableLauncher(l) => targets == [] && l in s.launchers
    case EnablePrincipal(p) => targets == [] && p in s.principals
  }

  ghost predicate CanHappen(s: State, e: Event) {
    match e
    case Resolve(r, x) => r !in s.requests && x in s.sessions
    case Admit(r, o) => r in s.requests && o !in s.ops
    case Complete(o) => o in s.ops
    case EndSession(x) => x in s.sessions
    case Restart => true
    case CreateSession(x, l) => s.phase.Idle? && x !in s.sessions && l in s.launchers && !Closed(s, l)
    case CreatePrincipal(p, l) => s.phase.Idle? && p !in s.principals && l !in s.used
    case CreateLauncher(l, p) => s.phase.Idle? && p in s.principals && l !in s.used
    case Begin(g, targets) => s.phase.Idle? && TargetsOf(s, g, targets)
    case Quiesce => s.phase.Quiescing? && s.phase.done < |s.phase.targets|
    case Snapshot => s.phase.Inspecting? && s.phase.done < |s.phase.targets|
    case Poll(o) => s.phase.Polling? && o in s.phase.candidates
    case Consult(_) => s.phase.Consulting? && s.phase.done < |s.phase.targets|
    case Clean(_) => s.phase.Cleaning? && s.phase.done < |s.phase.targets|
    case Disable(o) =>
        s.phase.Disabling? && s.phase.done < |s.phase.targets| &&
        (s.phase.targets[s.phase.done] !in s.launchers ==> o == Failed)
    case Remove(_) => s.phase.Removing?
    case Commit(_, children) =>
      s.phase.Committing? && (s.phase.goal.EnablePrincipal? ==> Children(s, s.phase.goal.principal, children))
    case Apply => s.phase.Applying? && s.phase.admissions != []
    case Restore(_) => s.phase.Restoring? && s.phase.rest != []
    case Advance => AtEnd(s.phase)
  }

  /** The current loop of the lock holder has nothing left. */
  predicate AtEnd(p: Phase) {
    match p
    case Quiescing(_, targets, done) => done == |targets|
    case Inspecting(_, targets, done) => done == |targets|
    case Polling(_, _, _, left) => left == {}
    case Cleaning(_, targets, done) => done == |targets|
    case Disabling(_, targets, done) => done == |targets|
    case Applying(left) => left == []
    case Restoring(left) => left == []
    case _ => false
  }

  function Onwards(p: Phase): Phase
    requires AtEnd(p)
  {
    match p
    case Quiescing(g, targets, _) => if Deletes(g) then Inspecting(g, targets, 0) else Committing(g, targets)
    case Inspecting(g, targets, _) => Cleaning(g, targets, 0)
    case Polling(g, targets, done, _) => Consulting(g, targets, done)
    case Cleaning(g, targets, _) => Disabling(g, targets, 0)
    case Disabling(g, targets, _) => Removing(g, targets)
    case _ => Idle
  }

  function CommitDone(s: State, g: Goal): State {
    match g
    case DisableLauncher(l) => Disabled(s, l)
    case DisablePrincipal(p) => PrincipalSet(s, p, false)
    case EnableLauncher(l) =>
        if l in s.launchers then s.(launchers := s.launchers[l := s.launchers[l].(enabled := true)]) else s
    case EnablePrincipal(p) => PrincipalSet(s, p, true)
    case _ => s
  }

  /** The admission states decided inside the committed enable. */
  function Admissions(s: State, g: Goal, children: seq<string>): seq<(string, bool)> {
    if g.EnableLauncher? then [(g.launcher, Closed(s, g.launcher))]
    else seq(|children|, i requires 0 <= i < |children| => (children[i], Closed(s, children[i])))
  }

  function Set(q: set<string>, l: string, closed: bool): set<string> { if closed then q + {l} else q - {l} }

  /** setQuiesced: admission for l is what the rows say. */
  function Settled(s: State, l: string, closed: bool): State {
    s.(quiesced := Set(s.quiesced, l, closed), missed := s.missed - {l}, stuck := s.stuck - {l})
  }

  /** A failed re-read leaves admission alone, also that of an open Launcher. */
  function LeftQuiesced(s: State, l: string): State {
    if l in s.quiesced && !Closed(s, l) then s.(stuck := s.stuck + {l}) else s
  }

  /** A missed Launcher that opened and a stuck one that closed are in order again. */
  function Forgetting(s: State): State {
    s.(missed := (set l | l in s.missed && Closed(s, l)), stuck := (set l | l in s.stuck && !Closed(s, l)))
  }

  /** The quiesced Launchers that a change of the rows opens. */
  function Opened(s: State, t: State): set<string> { set l | l in s.quiesced && Closed(s, l) && !Closed(t, l) }

  /** A crash at any point and a new daemon: the rows survive, the supervisor starts empty
      (newOperationSupervisor), and nothing quiesces the Launchers that are closed. */
  function Restarted(s: State): State {
    s.(quiesced := {}, ops := map[], requests := map[], used := s.launchers.Keys, phase := Idle,
       missed := (set l | l in s.launchers && Closed(s, l)), stuck := {})
  }

  function Removed(s: State, g: Goal): State {
    match g
    case DeleteLauncher(l) => RowRemoved(s, l)
    case DeletePrincipal(p) => PrincipalRemoved(s, p)
    case _ => s
  }

  function Next(s: State, e: Event): State
    requires CanHappen(s, e)
  {
    match e
    case Resolve(r, x) => s.(requests := s.requests[r := s.sessions[x]])
    case Admit(r, o) =>
      var t := s.(requests := s.requests - {r});
      if s.requests[r] in s.quiesced then t else t.(ops := s.ops[o := Op(s.requests[r], true)])
    case Complete(o) => s.(ops := s.ops[o := s.ops[o].(running := false)])
    case EndSession(x) => s.(sessions := s.sessions - {x})
    case Restart => Restarted(s)
    case CreateSession(x, l) => s.(sessions := s.sessions[x := l])
    case CreatePrincipal(p, l) =>
      s.(principals := s.principals[p := true], launchers := s.launchers[l := Row(p, true)], used := s.used + {l})
    case CreateLauncher(l, p) =>
      s.(launchers := s.launchers[l := Row(p, true)], used := s.used + {l},
         missed := if s.principals[p] then s.missed else s.missed + {l})
    case Begin(g, targets) => s.(phase := if Enables(g) then Committing(g, targets) else Quiescing(g, targets, 0))
    case Quiesce =>
      var l := s.phase.targets[s.phase.done];
      s.(quiesced := s.quiesced + {l}, missed := s.missed - {l},
          phase := Quiescing(s.phase.goal, s.phase.targets, s.phase.done + 1))
    case Snapshot =>
      var p := s.phase;
      s.(phase := Polling(p.goal, p.targets, p.done, set o | o in s.ops && s.ops[o].launcher == p.targets[p.done]))
    case Poll(o) =>
      if o in s.ops && s.ops[o].running then s.(phase := Restoring(s.phase.targets))
      else s.(phase := Polling(s.phase.goal, s.phase.targets, s.phase.done, s.phase.candidates - {o}))
    case Consult(quiet) =>
      s.(phase := if quiet then Inspecting(s.phase.goal, s.phase.targets, s.phase.done + 1)
          else Restoring(s.phase.targets))
    case Clean(ok) =>
        s.(phase := if ok then Cleaning(s.phase.goal, s.phase.targets, s.phase.done + 1)
        else Restoring(s.phase.targets))
    case Disable(outcome) =>
      var p := s.phase;
      var l := p.targets[p.done];
      var t := s.(quiesced := s.quiesced + {l}, missed := s.missed - {l});
      if outcome == Committed then Forgetting(Disabled(t, l)).(phase := Disabling(p.goal, p.targets, p.done + 1))
      else if outcome == Unknown then Forgetting(Disabled(t, l)).(phase := Restoring(p.targets[p.done..]))
      else t.(phase := Restoring(p.targets[p.done..]))
    case Remove(outcome) => (if outcome == Failed then s else Removed(s, s.phase.goal)).(phase := Idle)
    case Commit(outcome, children) =>
      var g := s.phase.goal;
      var t := if outcome == Failed then s else Forgetting(CommitDone(s, g));
      if !Enables(g) then t.(phase := if outcome == Committed then Idle else Restoring(s.phase.targets))
      else if outcome == Committed then t.(phase := Applying(Admissions(t, g, children)))
      else t.(phase := Idle, stuck := t.stuck + Opened(s, t))
    case Apply =>
      Settled(s, s.phase.admissions[0].0, s.phase.admissions[0].1).(phase := Applying(s.phase.admissions[1..]))
    case Restore(ok) =>
      var l := s.phase.rest[0];
      (if ok then Settled(s, l, Closed(s, l)) else LeftQuiesced(s, l)).(phase := Restoring(s.phase.rest[1..]))
    case Advance => s.(phase := Onwards(s.phase))
  }

  // ---------------------------------------------------------- invariants

  /** Every running Operation has its Launcher row, every Session an open Launcher. */
  ghost predicate OwnersExist(s: State) {
    && (forall o | o in s.ops && s.ops[o].running :: s.ops[o].launcher in s.launchers)
    && (forall x | x in s.sessions :: s.sessions[x] in s.launchers && !Closed(s, s.sessions[x]))
    && (forall l | l in s.launchers :: s.launchers[l].owner in s.principals)
  }

  /** A removed Launcher stays quiesced, and a request resolved earlier never stands for a
      closed Launcher that is not quiesced; so neither can be admitted. */
  ghost predicate RemovedStayQuiesced(s: State) {
    && s.launchers.Keys <= s.used && s.quiesced <= s.used
    && (forall l | l in s.used && l !in s.launchers :: l in s.quiesced)
    && (forall r | r in s.requests :: s.requests[r] in s.used && s.requests[r] !in s.missed)
  }

  ghost predicate Quiet(s: State, l: string) { forall o | o in s.ops && s.ops[o].launcher == l :: !s.ops[o].running }

  ghost predicate AllIn(ls: seq<string>, n: nat, q: set<string>)
    requires n <= |ls|
  {
    forall i | 0 <= i < n :: ls[i] in q
  }

  /** The targets of a delete are all the rows it will remove, quiesced and, up to n, quiet. */
  ghost predicate Checked(s: State, g: Goal, targets: seq<string>, n: nat) {
    && n <= |targets| && Deletes(g) && AllIn(targets, |targets|, s.quiesced)
    && (g.DeleteLauncher? ==> targets == [g.launcher])
    && (g.DeletePrincipal? ==> Children(s, g.principal, targets))
    && (forall i | 0 <= i < n :: Quiet(s, targets[i]))
  }

  ghost predicate AllDisabled(s: State, targets: seq<string>, n: nat)
    requires n <= |targets|
  {
    forall i | 0 <= i < n :: targets[i] in s.launchers && !s.launchers[targets[i]].enabled
  }

  ghost predicate PhaseHolds(s: State) {
    match s.phase
    case Idle => true
    case Quiescing(g, targets, done) =>
        done <= |targets| && AllIn(targets, done, s.quiesced) && !Enables(g) && TargetsOf(s, g, targets)
    case Inspecting(g, targets, done) => Checked(s, g, targets, done)
    case Polling(g, targets, done, left) =>
      && Checked(s, g, targets, done) && done < |targets|
      && (forall o | o in s.ops && s.ops[o].launcher == targets[done] && s.ops[o].running :: o in left)
    case Consulting(g, targets, done) => Checked(s, g, targets, done) && done < |targets| && Quiet(s, targets[done])
    case Cleaning(g, targets, done) => Checked(s, g, targets, |targets|) && done <= |targets|
    case Disabling(g, targets, done) =>
        Checked(s, g, targets, |targets|) && done <= |targets| && AllDisabled(s, targets, done)
    case Removing(g, targets) => Checked(s, g, targets, |targets|) && AllDisabled(s, targets, |targets|)
    case Committing(g, targets) => !Deletes(g) && TargetsOf(s, g, targets) && AllIn(targets, |targets|, s.quiesced)
    case Applying(left) => forall i | 0 <= i < |left| :: left[i].0 in s.launchers && left[i].1 == Closed(s, left[i].0)
    case Restoring(rest) => forall i | 0 <= i < |rest| :: rest[i] in s.used
  }

  /** Launchers whose admission the lock holder has still to settle. */
  ghost predicate Unsettled(p: Phase, l: string) {
    match p
    case Idle => false
    case Applying(left) => exists i | 0 <= i < |left| :: left[i].0 == l
    case Restoring(left) => l in left
    case Disabling(_, targets, done) => done <= |targets| && l in targets[done..]
    case Removing(_, _) => false
    case Committing(g, targets) => l in targets
    case _ => l in p.targets
  }

  /** Admission against the durable authorities: the closed Launchers that are not quiesced
      are the missed ones, the open ones that are quiesced are stuck or still unsettled. */
  ghost predicate Mirrors(s: State) {
    && (forall l :: l in s.missed <==> l in s.launchers && Closed(s, l) && l !in s.quiesced)
    && (forall l | l in s.stuck :: l in s.launchers && !Closed(s, l) && l in s.quiesced)
    && (forall l | l in s.launchers && l in s.quiesced && !Closed(s, l) :: Unsettled(s.phase, l) || l in s.stuck)
  }

  ghost predicate Safe(s: State) {
    OwnersExist(s) && RemovedStayQuiesced(s) && PhaseHolds(s) && Mirrors(s)
  }

  // ------------------------------------------- steps between the lock's steps

  /** Only sessions, operations and requests differ, and no Operation of a
      quiesced Launcher is new. */
  ghost predicate Around(s: State, t: State) {
    && t.principals == s.principals && t.launchers == s.launchers && t.quiesced == s.quiesced
    && t.used == s.used && t.phase == s.phase && t.missed == s.missed && t.stuck == s.stuck
    && (forall o | o in t.ops && t.ops[o].running && t.ops[o].launcher in s.quiesced ::
       o in s.ops && s.ops[o] == t.ops[o])
  }

  lemma QuietAround(s: State, t: State, l: string)
    requires Around(s, t) && l in s.quiesced && Quiet(s, l)
    ensures Quiet(t, l)
  {
  }

  lemma CheckedAround(s: State, t: State, g: Goal, targets: seq<string>, n: nat)
    requires Around(s, t) && Checked(s, g, targets, n)
    ensures Checked(t, g, targets, n)
  {
    hide Around, Quiet;
    forall i | 0 <= i < n ensures Quiet(t, targets[i]) { QuietAround(s, t, targets[i]); }
    AroundFacts(s, t);
  }

  lemma AroundFacts(s: State, t: State)
    requires Around(s, t)
    ensures t.principals == s.principals && t.launchers == s.launchers && t.quiesced == s.quiesced
    ensures t.used == s.used && t.phase == s.phase && t.missed == s.missed && t.stuck == s.stuck
    ensures forall l :: Closed(t, l) <==> Closed(s, l)
  {
  }

  lemma PhaseAround(s: State, t: State)
    requires Around(s, t) && PhaseHolds(s)
    ensures PhaseHolds(t)
  {
    hide Checked, Quiet, Around, Closed;
    AroundFacts(s, t);
    match s.phase
    case Inspecting(g, targets, done) => CheckedAround(s, t, g, targets, done);
    case Polling(g, targets, done, candidates) =>
      CheckedAround(s, t, g, targets, done);
      CandidatesAround(s, t, g, targets, done, candidates);
    case Consulting(g, targets, done) =>
      CheckedAround(s, t, g, targets, done);
      CheckedTarget(s, g, targets, done, done);
      QuietAround(s, t, targets[done]);
    case Cleaning(g, targets, done) => CheckedAround(s, t, g, targets, |targets|);
    case Disabling(g, targets, done) => CheckedAround(s, t, g, targets, |targets|);
    case Removing(g, targets) => CheckedAround(s, t, g, targets, |targets|);
    case _ =>
  }

  lemma CheckedTarget(s: State, g: Goal, targets: seq<string>, n: nat, i: nat)
    requires Checked(s, g, targets, n) && i < |targets|
    ensures targets[i] in s.quiesced
  {
  }

  lemma CandidatesAround(s: State, t: State, g: Goal, targets: seq<string>, done: nat, candidates: set<string>)
    requires Around(s, t) && Checked(s, g, targets, done) && done < |targets|
    requires forall o | o in s.ops && s.ops[o].launcher == targets[done] && s.ops[o].running :: o in candidates
    ensures forall o | o in t.ops && t.ops[o].launcher == targets[done] && t.ops[o].running :: o in candidates
  {
    CheckedTarget(s, g, targets, done, done);
  }

  lemma MirrorsAround(s: State, t: State)
    requires Around(s, t) && Mirrors(s)
    ensures Mirrors(t)
  {
    hide Closed, Unsettled;
    AroundFacts(s, t);
  }

  lemma AnyTimeKeeps(s: State, e: Event)
    requires Safe(s) && CanHappen(s, e) && (e.Resolve? || e.Complete? || e.EndSession?)
    ensures Safe(Next(s, e))
  {
    hide PhaseHolds, Mirrors, Closed;
    var t := Next(s, e);
    assert Around(s, t);
    AroundFacts(s, t);
    PhaseAround(s, t);
    MirrorsAround(s, t);
    MissedAreClosed(s);
  }

  lemma MissedAreClosed(s: State)
    requires Mirrors(s)
    ensures forall l | l in s.missed :: Closed(s, l) && l !in s.quiesced
  {
    hide Closed;
  }

  /** Admission: only for a Launcher that is not quiesced, hence still has its row. */
  lemma AdmitKeeps(s: State, e: Event)
    requires Safe(s) && CanHappen(s, e) && e.Admit?
    ensures Safe(Next(s, e))
  {
    hide PhaseHolds, Mirrors, Closed;
    var t := Next(s, e);
    assert Around(s, t);
    AroundFacts(s, t);
    PhaseAround(s, t);
    MirrorsAround(s, t);
  }

  // ------------------------------------------------- with the lock held

  lemma SessionCreationKeeps(s: State, e: Event)
    requires Safe(s) && CanHappen(s, e) && e.CreateSession?
    ensures Safe(Next(s, e))
  {
    hide Unsettled;
    forall l ensures Closed(Next(s, e), l) <==> Closed(s, l) {}
  }

  lemma CreationKeeps(s: State, e: Event)
    requires Safe(s) && CanHappen(s, e) && (e.CreatePrincipal? || e.CreateLauncher?)
    ensures Safe(Next(s, e))
  {
    hide Unsettled;
    forall l | l in s.launchers ensures Closed(Next(s, e), l) <==> Closed(s, l) {}
  }

  lemma BeginKeeps(s: State, e: Event)
    requires Safe(s) && CanHappen(s, e) && e.Begin?
    ensures Safe(Next(s, e))
  {
    hide Mirrors, OwnersExist, RemovedStayQuiesced, Closed;
    var t := Next(s, e);
    SafeRows(s, t);
    MirrorsFromIdle(s, t);
  }

  lemma MirrorsFromIdle(s: State, t: State)
    requires Mirrors(s) && s.phase.Idle? && t == s.(phase := t.phase)
    ensures Mirrors(t)
  {
    hide Closed;
    ClosedIgnoresPhase(s, t);
  }

  lemma QuiesceKeeps(s: State, e: Event)
    requires Safe(s) && CanHappen(s, e) && e.Quiesce?
    ensures Safe(Next(s, e))
  {
    hide Closed;
    var t := Next(s, e);
    assert t.launchers == s.launchers && t.principals == s.principals && t.sessions == s.sessions && t.ops == s.ops;
    ClosedSameRows(s, t);
  }

  lemma ClosedSameRows(s: State, t: State)
    requires t.launchers == s.launchers && t.principals == s.principals
    ensures forall l :: Closed(t, l) <==> Closed(s, l)
  {
  }

  /** The steps of the runtime check change no durable row and no admission. */
  ghost predicate OnlyPhase(s: State, t: State) {
    t.(phase := s.phase) == s
  }

  lemma OnlyPhaseKeeps(s: State, t: State)
    requires OnlyPhase(s, t) && OwnersExist(s) && RemovedStayQuiesced(s) && Mirrors(s)
    requires forall l | Unsettled(s.phase, l) && l in s.launchers && !Closed(s, l) :: Unsettled(t.phase, l)
    ensures OwnersExist(t) && RemovedStayQuiesced(t) && Mirrors(t)
  {
    hide Unsettled;
    forall l ensures Closed(t, l) <==> Closed(s, l) {}
  }

  lemma CheckedSamePhase(s: State, t: State, g: Goal, targets: seq<string>, n: nat)
    requires OnlyPhase(s, t) && Checked(s, g, targets, n)
    ensures Checked(t, g, targets, n)
  {
  }

  lemma CheckKeeps(s: State, e: Event)
    requires Safe(s) && CanHappen(s, e) && (e.Snapshot? || e.Poll? || e.Consult? || e.Clean?)
    ensures Safe(Next(s, e))
  {
    hide OwnersExist, RemovedStayQuiesced, Mirrors, Closed, PhaseHolds, Unsettled;
    var t := Next(s, e);
    assert OnlyPhase(s, t);
    match e {
      case Snapshot => SnapshotPhase(s);
      case Poll(_) => PollPhase(s, e);
      case Consult(_) => ConsultPhase(s, e);
      case Clean(_) => CleanPhase(s, e);
    }
    OnlyPhaseKeeps(s, t);
  }

  /** A step of the check leads to a phase that holds and forgets no unsettled Launcher. */
  ghost predicate Follows(s: State, t: State) {
    PhaseHolds(t) && forall l | Unsettled(s.phase, l) :: Unsettled(t.phase, l)
  }

  lemma SnapshotPhase(s: State)
    requires PhaseHolds(s) && CanHappen(s, Snapshot)
    ensures Follows(s, Next(s, Snapshot))
  {
    hide Checked;
    var p := s.phase;
    CheckedSamePhase(s, Next(s, Snapshot), p.goal, p.targets, p.done);
  }

  lemma PollPhase(s: State, e: Event)
    requires PhaseHolds(s) && RemovedStayQuiesced(s) && e.Poll? && CanHappen(s, e)
    ensures Follows(s, Next(s, e))
  {
    hide Checked, RemovedStayQuiesced;
    var p := s.phase;
    TargetsUsed(s, p.goal, p.targets, p.done);
    if !(e.op in s.ops && s.ops[e.op].running) { CheckedSamePhase(s, Next(s, e), p.goal, p.targets, p.done); }
  }

  lemma ConsultPhase(s: State, e: Event)
    requires PhaseHolds(s) && RemovedStayQuiesced(s) && e.Consult? && CanHappen(s, e)
    ensures Follows(s, Next(s, e))
  {
    hide Checked, RemovedStayQuiesced, Quiet;
    var p := s.phase;
    TargetsUsed(s, p.goal, p.targets, p.done);
    if e.quiet { CheckedNext(s, Next(s, e), p.goal, p.targets, p.done); }
  }

  lemma CleanPhase(s: State, e: Event)
    requires PhaseHolds(s) && RemovedStayQuiesced(s) && e.Clean? && CanHappen(s, e)
    ensures Follows(s, Next(s, e))
  {
    hide Checked, RemovedStayQuiesced;
    var p := s.phase;
    CheckedSamePhase(s, Next(s, e), p.goal, p.targets, |p.targets|);
    TargetsUsed(s, p.goal, p.targets, |p.targets|);
  }

  lemma TargetsUsed(s: State, g: Goal, targets: seq<string>, n: nat)
    requires Checked(s, g, targets, n) && RemovedStayQuiesced(s)
    ensures forall i | 0 <= i < |targets| :: targets[i] in s.used
  {
  }

  lemma CheckedNext(s: State, t: State, g: Goal, targets: seq<string>, n: nat)
    requires OnlyPhase(s, t) && Checked(s, g, targets, n) && n < |targets| && Quiet(s, targets[n])
    ensures Checked(t, g, targets, n + 1)
  {
  }

  lemma AdvanceKeeps(s: State, e: Event)
    requires Safe(s) && CanHappen(s, e) && e.Advance?
    ensures Safe(Next(s, e))
  {
    hide OwnersExist, RemovedStayQuiesced, Mirrors, Closed, PhaseHolds, Unsettled;
    assert OnlyPhase(s, Next(s, e));
    AdvancePhase(s);
    AdvanceSettles(s);
    OnlyPhaseKeeps(s, Next(s, e));
  }

  lemma AdvancePhase(s: State)
    requires PhaseHolds(s) && CanHappen(s, Advance)
    ensures PhaseHolds(Next(s, Advance))
  {
    hide Closed;
  }

  /** The steps end with their targets closed, or settle them one by one. */
  lemma AdvanceSettles(s: State)
    requires PhaseHolds(s) && CanHappen(s, Advance)
    ensures forall l | Unsettled(s.phase, l) && !Closed(s, l) :: Unsettled(Next(s, Advance).phase, l)
  {
    hide Closed, Checked;
    if s.phase.Disabling? { DisabledAreClosed(s, s.phase.targets); }
  }

  lemma DisabledAreClosed(s: State, targets: seq<string>)
    requires AllDisabled(s, targets, |targets|)
    ensures forall l | l in targets :: Closed(s, l)
  {
    forall l | l in targets ensures Closed(s, l) {
      var i :| 0 <= i < |targets| && targets[i] == l;
    }
  }

  /** Disabling a quiesced Launcher: its Sessions go, and it counts as closed. */
  lemma DisabledFacts(s: State, l: string)
    requires OwnersExist(s) && RemovedStayQuiesced(s) && l in s.quiesced
    ensures var t := Disabled(s, l);
            && OwnersExist(t) && RemovedStayQuiesced(t)
            && t.launchers.Keys == s.launchers.Keys && t.quiesced == s.quiesced && t.ops == s.ops &&
               t.principals == s.principals
            && t.missed == s.missed && t.stuck == s.stuck && t.used == s.used && t.requests == s.requests
            && (forall k | k in s.launchers :: t.launchers[k].owner == s.launchers[k].owner &&
                                                (t.launchers[k].enabled <==> s.launchers[k].enabled && k != l))
            && (forall k :: Closed(t, k) <==> Closed(s, k) || k == l)
  {
  }

  lemma QuiescedFacts(s: State, l: string)
    requires Mirrors(s) && l in s.quiesced
    ensures s.(quiesced := s.quiesced + {l}, missed := s.missed - {l}) == s
  {
    assert s.quiesced + {l} == s.quiesced && s.missed - {l} == s.missed;
  }

  lemma DisableKeeps(s: State, e: Event)
    requires Safe(s) && CanHappen(s, e) && e.Disable?
    ensures Safe(Next(s, e))
  {
    hide OwnersExist, RemovedStayQuiesced, Closed, Disabled, Mirrors, Checked, AllDisabled, Forgetting;
    var p := s.phase;
    var l := p.targets[p.done];
    CheckedTarget(s, p.goal, p.targets, |p.targets|, p.done);
    QuiescedFacts(s, l);
    DisabledFacts(s, l);
    TargetsUsed(s, p.goal, p.targets, |p.targets|);
    DisableForgets(s, l);
    var d := if e.outcome == Failed then s else Disabled(s, l);
    var t := Next(s, e);
    assert t == d.(phase := t.phase, stuck := t.stuck);
    ClosedIgnoresPhase(d, t);
    SafeRows(d, t);
    if e.outcome == Failed { FailedDisableMirrors(s, t); } else { DisableMirrors(s, t, l); }
    if e.outcome == Committed { DisablePhase(s, t, l); }
  }

  lemma DisablePhase(s: State, t: State, l: string)
    requires PhaseHolds(s) && s.phase.Disabling? && s.phase.done < |s.phase.targets| &&
             l == s.phase.targets[s.phase.done]
    requires t.ops == s.ops && t.quiesced == s.quiesced && t.launchers.Keys == s.launchers.Keys && l in s.launchers
    requires forall k | k in s.launchers :: t.launchers[k].owner == s.launchers[k].owner &&
                                            (t.launchers[k].enabled <==> s.launchers[k].enabled && k != l)
    requires t.phase == Disabling(s.phase.goal, s.phase.targets, s.phase.done + 1)
    ensures PhaseHolds(t)
  {
    QuietSameOps(s, t);
  }

  lemma DisableForgets(s: State, l: string)
    requires Mirrors(s) && Disabled(s, l).missed == s.missed && Disabled(s, l).stuck == s.stuck
    requires forall k :: Closed(Disabled(s, l), k) <==> Closed(s, k) || k == l
    ensures Forgetting(Disabled(s, l)) == Disabled(s, l).(stuck := s.stuck - {l})
  {
    hide Closed, Disabled;
    assert (set k | k in s.missed && Closed(Disabled(s, l), k)) == s.missed;
  }

  lemma ClosedIgnoresPhase(s: State, t: State)
    requires t == s.(phase := t.phase, missed := t.missed, stuck := t.stuck)
    ensures forall l :: Closed(t, l) <==> Closed(s, l)
  {
  }

  lemma SafeRows(s: State, t: State)
    requires t == s.(phase := t.phase, missed := t.missed, stuck := t.stuck) && t.missed <= s.missed
    requires OwnersExist(s) && RemovedStayQuiesced(s)
    ensures OwnersExist(t) && RemovedStayQuiesced(t)
  {
    ClosedIgnoresPhase(s, t);
  }

  lemma QuietSameOps(s: State, t: State)
    requires t.ops == s.ops
    ensures forall l :: Quiet(t, l) <==> Quiet(s, l)
  {
  }

  lemma FailedDisableMirrors(s: State, t: State)
    requires Mirrors(s) && s.phase.Disabling? && s.phase.done < |s.phase.targets|
    requires t == s.(phase := Restoring(s.phase.targets[s.phase.done..]))
    ensures Mirrors(t)
  {
    hide Closed;
    ClosedIgnoresPhase(s, t);
  }

  lemma DisableMirrors(s: State, t: State, l: string)
    requires Mirrors(s) && s.phase.Disabling? && s.phase.done < |s.phase.targets| && l == s.phase.targets[s.phase.done]
    requires l in s.quiesced && t.quiesced == s.quiesced && t.launchers.Keys == s.launchers.Keys
    requires t.missed == s.missed && t.stuck == s.stuck - {l}
    requires t.phase == Disabling(s.phase.goal, s.phase.targets, s.phase.done + 1) ||
             t.phase == Restoring(s.phase.targets[s.phase.done..])
    requires forall k :: Closed(t, k) <==> Closed(s, k) || k == l
    ensures Mirrors(t)
  {
    hide Closed;
    var targets, done := s.phase.targets, s.phase.done;
    assert targets[done..] == [l] + targets[done + 1..];
  }

  /** Removal takes only rows whose Operations were all seen to have ended. */
  lemma RemoveKeeps(s: State, e: Event)
    requires Safe(s) && CanHappen(s, e) && e.Remove?
    ensures Safe(Next(s, e))
  {
    var targets, g := s.phase.targets, s.phase.goal;
    if e.outcome == Failed {
      SafeRows(s, Next(s, e));
      DisabledAreClosed(s, targets);
    } else {
      RemovedRows(s, g, targets);
      SafeRows(Removed(s, g), Next(s, e));
      DisabledAreClosed(s, targets);
      RemovedMirrors(s, g, targets, Next(s, e));
    }
  }

  lemma RemovedRows(s: State, g: Goal, targets: seq<string>)
    requires OwnersExist(s) && RemovedStayQuiesced(s) && Checked(s, g, targets, |targets|)
    ensures OwnersExist(Removed(s, g)) && RemovedStayQuiesced(Removed(s, g))
  {
    RemovedOwners(s, g, targets);
    RemovedQuiesced(s, g, targets);
  }

  lemma RemovedOwners(s: State, g: Goal, targets: seq<string>)
    requires OwnersExist(s) && Checked(s, g, targets, |targets|)
    ensures OwnersExist(Removed(s, g))
  {
    hide Closed, AllIn;
    var t := Removed(s, g);
    forall l | l in t.launchers ensures Closed(t, l) ==> Closed(s, l) { RemovedClosed(s, g, l); }
    forall o | o in t.ops && t.ops[o].running ensures t.ops[o].launcher in t.launchers {
      assert s.ops[o].launcher !in targets;
    }
    forall x | x in t.sessions ensures t.sessions[x] in t.launchers && !Closed(t, t.sessions[x]) {
      assert !Closed(s, s.sessions[x]);
    }
  }

  lemma RemovedClosed(s: State, g: Goal, l: string)
    requires l in Removed(s, g).launchers
    ensures Closed(Removed(s, g), l) ==> Closed(s, l)
  {
  }

  lemma RemovedQuiesced(s: State, g: Goal, targets: seq<string>)
    requires RemovedStayQuiesced(s) && Checked(s, g, targets, |targets|)
    ensures RemovedStayQuiesced(Removed(s, g))
  {
    hide Closed, Quiet;
    var t := Removed(s, g);
    forall l | l in t.used && l !in t.launchers ensures l in t.quiesced {
      if l in s.launchers {
        assert l in targets;
        var i :| 0 <= i < |targets| && targets[i] == l;
      }
    }
  }

  lemma RemovedMirrors(s: State, g: Goal, targets: seq<string>, t: State)
    requires s.phase == Removing(g, targets) && Mirrors(s) && OwnersExist(s) && Checked(s, g, targets, |targets|)
    requires t == Removed(s, g).(phase := Idle) && forall l | l in targets :: Closed(s, l)
    ensures Mirrors(t)
  {
    hide Quiet;
    forall l | l in t.launchers ensures Closed(t, l) <==> Closed(s, l) {}
    forall l | l in s.launchers && l !in t.launchers ensures l in targets {}
    forall l | l in targets ensures l in s.quiesced { var i :| 0 <= i < |targets| && targets[i] == l; }
  }

  lemma CommitKeeps(s: State, e: Event)
    requires Safe(s) && CanHappen(s, e) && e.Commit?
    ensures Safe(Next(s, e))
  {
    hide OwnersExist, RemovedStayQuiesced, Closed, Mirrors;
    var g := s.phase.goal;
    if e.outcome == Failed {
      SafeRows(s, Next(s, e));
      FailedCommitMirrors(s, e);
    } else if Enables(g) {
      EnableCommitKeeps(s, e);
    } else {
      DisableCommitKeeps(s, e);
    }
  }

  lemma FailedCommitMirrors(s: State, e: Event)
    requires Mirrors(s) && CanHappen(s, e) && e.Commit? && e.outcome == Failed && PhaseHolds(s) &&
             RemovedStayQuiesced(s)
    ensures Mirrors(Next(s, e)) && PhaseHolds(Next(s, e))
  {
    hide Closed;
    ClosedIgnoresPhase(s, Next(s, e));
  }

  lemma DisableCommitKeeps(s: State, e: Event)
    requires Safe(s) && CanHappen(s, e) && e.Commit? && e.outcome != Failed && !Enables(s.phase.goal)
    ensures Safe(Next(s, e))
  {
    var g, targets, t := s.phase.goal, s.phase.targets, Next(s, e);
    DisableCommitRows(s, g, targets);
    SafeRows(CommitDone(s, g), t);
    ClosedIgnoresPhase(CommitDone(s, g), t);
    forall i | 0 <= i < |targets| ensures targets[i] in s.used {}
  }

  /** A committed disable closes exactly the quiesced targets. */
  lemma DisableCommitRows(s: State, g: Goal, targets: seq<string>)
    requires OwnersExist(s) && RemovedStayQuiesced(s) && TargetsOf(s, g, targets) &&
             AllIn(targets, |targets|, s.quiesced)
    requires g.DisableLauncher? || g.DisablePrincipal?
    ensures var t := CommitDone(s, g);
            && OwnersExist(t) && RemovedStayQuiesced(t) && t.quiesced == s.quiesced &&
               t.launchers.Keys == s.launchers.Keys
            && t.used == s.used && t.missed == s.missed && t.stuck == s.stuck
            && (forall l | l in s.launchers :: Closed(t, l) <==> Closed(s, l) || l in targets)
  {
    var t := CommitDone(s, g);
    if g.DisablePrincipal? {
      forall l | l in s.launchers ensures Closed(t, l) <==> Closed(s, l) || l in targets {}
      forall x | x in t.sessions ensures t.sessions[x] in t.launchers && !Closed(t, t.sessions[x]) {
        assert !Closed(s, s.sessions[x]);
      }
    } else {
      assert targets[0] in s.quiesced;
      DisabledFacts(s, g.launcher);
    }
  }

  lemma EnableCommitRows(s: State, g: Goal)
    requires OwnersExist(s) && RemovedStayQuiesced(s) && Enables(g)
    ensures var t := CommitDone(s, g);
            && OwnersExist(t) && RemovedStayQuiesced(t) && t.quiesced == s.quiesced &&
               t.launchers.Keys == s.launchers.Keys
            && t.missed == s.missed && t.stuck == s.stuck
            && (forall l | l in s.launchers :: Closed(t, l) ==> Closed(s, l))
            && (forall l | l in s.launchers && Closed(s, l) && !Closed(t, l) ::
                  if g.EnableLauncher? then l == g.launcher else s.launchers[l].owner == g.principal)
  {
    hide Closed, RemovedStayQuiesced;
    EnableOpens(s, g);
    var t := CommitDone(s, g);
    SameIdsStayQuiesced(s, t);
    forall x | x in t.sessions ensures t.sessions[x] in t.launchers && !Closed(t, t.sessions[x]) {
      assert !Closed(s, s.sessions[x]);
    }
  }

  lemma SameIdsStayQuiesced(s: State, t: State)
    requires RemovedStayQuiesced(s)
    requires t.launchers.Keys == s.launchers.Keys && t.used == s.used && t.quiesced == s.quiesced &&
             t.requests == s.requests
    requires t.missed == s.missed
    ensures RemovedStayQuiesced(t)
  {
  }

  lemma EnableOpens(s: State, g: Goal)
    requires Enables(g)
    ensures var t := CommitDone(s, g);
            && t.quiesced == s.quiesced && t.launchers.Keys == s.launchers.Keys &&
               t.principals.Keys == s.principals.Keys
            && t.used == s.used && t.sessions == s.sessions && t.ops == s.ops && t.requests == s.requests
            && t.missed == s.missed && t.stuck == s.stuck
            && (forall l | l in s.launchers :: t.launchers[l].owner == s.launchers[l].owner)
            && (forall l | l in s.launchers :: Closed(t, l) ==> Closed(s, l))
            && (forall l | l in s.launchers && Closed(s, l) && !Closed(t, l) ::
                  if g.EnableLauncher? then l == g.launcher else s.launchers[l].owner == g.principal)
  {
  }

  lemma EnableCommitKeeps(s: State, e: Event)
    requires Safe(s) && CanHappen(s, e) && e.Commit? && e.outcome != Failed && Enables(s.phase.goal)
    ensures Safe(Next(s, e))
  {
    hide OwnersExist, RemovedStayQuiesced, Closed, Mirrors, CommitDone, Admissions;
    var g, t := s.phase.goal, Next(s, e);
    var d := CommitDone(s, g);
    EnableCommitRows(s, g);
    SafeRows(d, t);
    ClosedIgnoresPhase(d, t);
    ClosedIgnoresPhase(d, Forgetting(d));
    if e.outcome == Committed {
      EnabledTarget(s, g, e.children);
      AdmissionsCover(Forgetting(d), g, e.children, t);
    }
    EnableMirrors(s, d, t);
  }

  lemma EnabledTarget(s: State, g: Goal, children: seq<string>)
    requires PhaseHolds(s) && s.phase.Committing? && s.phase.goal == g && CanHappen(s, Commit(Committed, children)) &&
             Enables(g)
    ensures var d := Forgetting(CommitDone(s, g));
            && (g.EnableLauncher? ==> g.launcher in d.launchers)
            && (g.EnablePrincipal? ==> Children(d, g.principal, children))
  {
    hide Closed;
  }

  /** An enable opens nothing that it does not settle or remember. */
  lemma EnableMirrors(s: State, d: State, t: State)
    requires Mirrors(s) && PhaseHolds(s) && s.phase.Committing? && Enables(s.phase.goal)
    requires d.quiesced == s.quiesced && d.launchers.Keys == s.launchers.Keys && d.missed == s.missed &&
             d.stuck == s.stuck
    requires forall l | l in s.launchers :: Closed(d, l) ==> Closed(s, l)
    requires forall l :: Closed(t, l) <==> Closed(d, l)
    requires t == Forgetting(d).(phase := t.phase, stuck := t.stuck)
    requires t.stuck == Forgetting(d).stuck || t.stuck == Forgetting(d).stuck + Opened(s, Forgetting(d))
    requires forall l | l in s.launchers && Closed(s, l) && !Closed(d, l) ::
               Unsettled(t.phase, l) || t.stuck == Forgetting(d).stuck + Opened(s, Forgetting(d))
    ensures Mirrors(t)
  {
    hide Closed;
    ClosedIgnoresPhase(d, Forgetting(d));
    OpenHaveRows(d);
  }

  lemma OpenHaveRows(s: State)
    ensures forall l | !Closed(s, l) :: l in s.launchers
  {
  }

  /** The decided admissions are those of the rows, and name every Launcher the enable can open. */
  lemma AdmissionsCover(d: State, g: Goal, children: seq<string>, t: State)
    requires Enables(g) && (g.EnableLauncher? ==> g.launcher in d.launchers)
    requires g.EnablePrincipal? ==> Children(d, g.principal, children)
    requires t.phase == Applying(Admissions(d, g, children)) && t.launchers == d.launchers
    requires forall l :: Closed(t, l) <==> Closed(d, l)
    ensures PhaseHolds(t)
    ensures forall l | l in d.launchers &&
            (if g.EnableLauncher? then l == g.launcher else d.launchers[l].owner == g.principal) ::
              Unsettled(t.phase, l)
  {
    hide Closed;
    var a := Admissions(d, g, children);
    forall l | l in d.launchers && (if g.EnableLauncher? then l == g.launcher else d.launchers[l].owner == g.principal)
      ensures Unsettled(t.phase, l)
    {
      if g.EnableLauncher? {
        assert a[0].0 == l;
      } else {
        assert l in children;
        var i :| 0 <= i < |children| && children[i] == l;
        assert a[i].0 == l;
      }
    }
    if g.EnablePrincipal? {
      forall i | 0 <= i < |a| ensures a[i].0 in t.launchers { assert children[i] in children; }
    }
  }

  lemma SettleKeeps(s: State, e: Event)
    requires Safe(s) && CanHappen(s, e) && (e.Apply? || e.Restore?)
    ensures Safe(Next(s, e))
  {
    hide OwnersExist, RemovedStayQuiesced, Mirrors, Closed, Set;
    var t := Next(s, e);
    if e.Apply? {
      AdmissionsUsed(s);
      SettledOne(s, t, s.phase.admissions[0].0);
    } else if e.ok {
      SettledOne(s, t, s.phase.rest[0]);
    } else {
      SafeRows(s, t);
      LeftQuiescedMirrors(s, t);
    }
  }

  lemma AdmissionsUsed(s: State)
    requires RemovedStayQuiesced(s)
    ensures forall l | l in s.launchers :: l in s.used
  {
  }

  lemma LeftQuiescedMirrors(s: State, t: State)
    requires Mirrors(s) && s.phase.Restoring? && s.phase.rest != []
    requires t == LeftQuiesced(s, s.phase.rest[0]).(phase := Restoring(s.phase.rest[1..]))
    ensures Mirrors(t)
    ensures forall l :: Closed(t, l) <==> Closed(s, l)
  {
    hide Closed;
    ClosedIgnoresPhase(s, t);
    OpenHaveRows(s);
    assert s.phase.rest == [s.phase.rest[0]] + s.phase.rest[1..];
  }

  /** One Launcher's admission is set to what the rows say. */
  lemma SettledOne(s: State, t: State, l: string)
    requires OwnersExist(s) && RemovedStayQuiesced(s) && Mirrors(s) && l in s.used
    requires t == Settled(s, l, Closed(s, l)).(phase := t.phase)
    requires forall k | Unsettled(s.phase, k) && k != l :: Unsettled(t.phase, k)
    ensures OwnersExist(t) && RemovedStayQuiesced(t) && Mirrors(t)
    ensures forall k :: Closed(t, k) <==> Closed(s, k)
  {
    hide Unsettled;
    forall k ensures Closed(t, k) <==> Closed(s, k) {}
  }

  // ---------------------------------------------- what committed steps do

  /** A removal that took effect deletes exactly the goal's rows: nothing refuses it any more. */
  lemma RemoveDoes(s: State, e: Event)
    requires Safe(s) && CanHappen(s, e) && e.Remove? && e.outcome != Failed
    ensures var t := Next(s, e);
            match s.phase.goal
            case DeleteLauncher(l) =>
              && t.principals == s.principals && t.sessions == s.sessions && l !in t.launchers
              && forall k | k != l :: (k in t.launchers <==> k in s.launchers) &&
                                      (k in s.launchers ==> t.launchers[k] == s.launchers[k])
            case DeletePrincipal(p) =>
              && p !in t.principals && (forall q | q in s.principals && q != p :: q in t.principals)
              && (forall k :: k in t.launchers <==> k in s.launchers && s.launchers[k].owner != p)
              && (forall x :: x in t.sessions <==> x in s.sessions && s.sessions[x] in t.launchers)
            case _ => true
  {
    var targets := s.phase.targets;
    DisabledAreClosed(s, targets);
    if s.phase.goal.DeleteLauncher? { assert targets[0] in targets; }
  }

  /** A change of an enabled state that took effect sets exactly that state; a disable ends
      exactly the Sessions below it. */
  lemma CommitDoes(s: State, e: Event)
    requires PhaseHolds(s) && OwnersExist(s) && CanHappen(s, e) && e.Commit? && e.outcome != Failed
    ensures var t := Next(s, e);
            match s.phase.goal
            case DisableLauncher(l) =>
              && t.principals == s.principals && t.launchers == s.launchers[l := s.launchers[l].(enabled := false)]
              && forall x :: x in t.sessions <==> x in s.sessions && s.sessions[x] != l
            case EnableLauncher(l) =>
              && t.principals == s.principals && t.launchers == s.launchers[l := s.launchers[l].(enabled := true)]
              && t.sessions == s.sessions
            case DisablePrincipal(p) =>
              && t.principals == s.principals[p := false] && t.launchers == s.launchers
              && forall x :: x in t.sessions <==> x in s.sessions && s.launchers[s.sessions[x]].owner != p
            case EnablePrincipal(p) =>
              t.principals == s.principals[p := true] && t.launchers == s.launchers && t.sessions == s.sessions
            case _ => true
  {
    hide Admissions, Forgetting;
    var g := s.phase.goal;
    ForgettingKeepsRows(CommitDone(s, g));
    if g.DisablePrincipal? && !s.principals[g.principal] {
      assert s.principals[g.principal := false] == s.principals;
      forall x | x in s.sessions ensures s.launchers[s.sessions[x]].owner != g.principal {
        assert !Closed(s, s.sessions[x]);
      }
    }
    if g.EnablePrincipal? && s.principals[g.principal] { assert s.principals[g.principal := true] == s.principals; }
  }

  lemma ForgettingKeepsRows(s: State)
    ensures var t := Forgetting(s);
            t.principals == s.principals && t.launchers == s.launchers && t.sessions == s.sessions
  {
  }

  // ------------------------------------------------------------- theorems

  lemma RestartKeeps(s: State)
    requires Safe(s)
    ensures Safe(Next(s, Restart))
  {
    hide Closed;
    ClosedSameRows(s, Restarted(s));
  }

  lemma EveryStepIsSafe(s: State, e: Event)
    requires Safe(s) && CanHappen(s, e)
    ensures Safe(Next(s, e))
  {
    hide Safe, CanHappen, Next;
    match e
    case Resolve(_, _) => AnyTimeKeeps(s, e);
    case Complete(_) => AnyTimeKeeps(s, e);
    case EndSession(_) => AnyTimeKeeps(s, e);
    case Restart => RestartKeeps(s);
    case Admit(_, _) => AdmitKeeps(s, e);
    case CreateSession(_, _) => SessionCreationKeeps(s, e);
    case CreatePrincipal(_, _) => CreationKeeps(s, e);
    case CreateLauncher(_, _) => CreationKeeps(s, e);
    case Begin(_, _) => BeginKeeps(s, e);
    case Quiesce => QuiesceKeeps(s, e);
    case Disable(_) => DisableKeeps(s, e);
    case Remove(_) => RemoveKeeps(s, e);
    case Commit(_, _) => CommitKeeps(s, e);
    case Apply => SettleKeeps(s, e);
    case Restore(_) => SettleKeeps(s, e);
    case Advance => AdvanceKeeps(s, e);
    case _ => CheckKeeps(s, e);
  }

  ghost predicate Reaches(s: State, run: seq<Event>, t: State)
    decreases |run|
  {
    if run == [] then s == t else CanHappen(s, run[0]) && Reaches(Next(s, run[0]), run[1..], t)
  }

  /** A daemon that has just started over rows whose Sessions all have open Launchers;
      any number of Launchers and Principals may be disabled. */
  ghost predicate Started(s: State) { Restarted(s) == s && OwnersExist(s) }

  lemma StartedIsSafe(s: State)
    requires Started(s)
    ensures Safe(s)
  {
  }

  lemma {:induction false} RunsAreSafe(s: State, run: seq<Event>, t: State)
    requires Safe(s) && Reaches(s, run, t)
    ensures Safe(t)
    decreases |run|
  {
    hide Safe, CanHappen, Next;
    if run != [] {
      EveryStepIsSafe(s, run[0]);
      RunsAreSafe(Next(s, run[0]), run[1..], t);
    }
  }

  /** In every interleaving of admissions, completions, failures, checked deletes and
      restarts, a running Operation has its Launcher row and a Session its open Launcher. */
  lemma OperationsKeepTheirLauncher(s: State, run: seq<Event>, t: State)
    requires Started(s) && Reaches(s, run, t)
    ensures forall o | o in t.ops && t.ops[o].running :: t.ops[o].launcher in t.launchers
    ensures forall x | x in t.sessions :: t.sessions[x] in t.launchers && !Closed(t, t.sessions[x])
  {
    hide Closed, Started;
    StartedIsSafe(s);
    RunsAreSafe(s, run, t);
  }

  /** No request is ever admitted for a closed Launcher, not even for one that
      nothing has quiesced. */
  lemma OnlyOpenLaunchersAdmit(s: State, run: seq<Event>, t: State, request: string, op: string)
    requires Started(s) && Reaches(s, run, t) && CanHappen(t, Admit(request, op))
    ensures var u := Next(t, Admit(request, op));
            op in u.ops ==> u.ops[op].launcher == t.requests[request] && !Closed(t, t.requests[request])
  {
    hide Closed, Started;
    StartedIsSafe(s);
    RunsAreSafe(s, run, t);
    var l := t.requests[request];
    if l !in t.launchers { assert l in t.quiesced; }
  }

  /** Whenever lifecycleMu is free, admission differs from the durable authorities exactly
      at the missed Launchers, closed but not quiesced, and at the stuck ones, open but quiesced. */
  lemma AdmissionMirrorsAuthorities(s: State, run: seq<Event>, t: State)
    requires Started(s) && Reaches(s, run, t) && t.phase.Idle?
    ensures forall l | l in t.launchers :: Closed(t, l) && l !in t.quiesced <==> l in t.missed
    ensures forall l | l in t.launchers :: !Closed(t, l) && l in t.quiesced <==> l in t.stuck
  {
    hide Closed, Started;
    StartedIsSafe(s);
    RunsAreSafe(s, run, t);
  }

  /** An event that makes no closed Launcher miss its quiescing. */
  ghost predicate MissesNone(s: State, e: Event)
    requires CanHappen(s, e)
  {
    match e
    case CreateLauncher(_, p) => s.principals[p]
    case Restart => forall l | l in s.launchers :: !Closed(s, l)
    case _ => true
  }

  /** An event that leaves no open Launcher quiesced: no re-read fails, and no
      enable commits although an error came back. */
  ghost predicate LeavesNone(s: State, e: Event)
    requires CanHappen(s, e)
  {
    match e
    case Restore(ok) => ok
    case Commit(outcome, _) => outcome == Unknown ==> !Enables(s.phase.goal)
    case _ => true
  }

  ghost predicate RunMissesNone(s: State, run: seq<Event>)
    decreases |run|
  {
    run != [] && CanHappen(s, run[0]) ==> MissesNone(s, run[0]) && RunMissesNone(Next(s, run[0]), run[1..])
  }

  ghost predicate RunLeavesNone(s: State, run: seq<Event>)
    decreases |run|
  {
    run != [] && CanHappen(s, run[0]) ==> LeavesNone(s, run[0]) && RunLeavesNone(Next(s, run[0]), run[1..])
  }

  lemma {:induction false} MissedNone(s: State, run: seq<Event>, t: State)
    requires s.missed == {} && Reaches(s, run, t) && RunMissesNone(s, run)
    ensures t.missed == {}
    decreases |run|
  {
    hide Closed, CanHappen;
    if run != [] {
      StepMissesNone(s, run[0]);
      MissedNone(Next(s, run[0]), run[1..], t);
    }
  }

  lemma StepMissesNone(s: State, e: Event)
    requires s.missed == {} && CanHappen(s, e) && MissesNone(s, e)
    ensures Next(s, e).missed == {}
  {
    hide Closed, CanHappen, Next;
    if e.Commit? { CommitMarks(s, e); }
    else if e.Disable? { DisableMarks(s, e); }
    else if e.Restart? { RestartMarks(s); }
    else { OtherMarks(s, e); }
  }

  lemma CommitMarks(s: State, e: Event)
    requires CanHappen(s, e) && e.Commit?
    ensures Next(s, e).missed <= s.missed
    ensures LeavesNone(s, e) ==> Next(s, e).stuck <= s.stuck
  {
    hide Closed, CommitDone, Admissions;
    RowsKeepMarks(s, s.phase.goal);
    if e.outcome == Failed { assert Opened(s, s) == {}; }
  }

  lemma DisableMarks(s: State, e: Event)
    requires CanHappen(s, e) && e.Disable?
    ensures Next(s, e).missed <= s.missed && Next(s, e).stuck <= s.stuck
  {
    hide Closed;
  }

  lemma RestartMarks(s: State)
    ensures MissesNone(s, Restart) ==> Next(s, Restart).missed == {}
    ensures Next(s, Restart).stuck == {}
  {
    hide Closed;
  }

  lemma OtherMarks(s: State, e: Event)
    requires CanHappen(s, e) && !e.Commit? && !e.Disable? && !e.Restart?
    ensures MissesNone(s, e) ==> Next(s, e).missed <= s.missed
    ensures LeavesNone(s, e) ==> Next(s, e).stuck <= s.stuck
  {
    hide Closed, Removed, Set, Onwards;
    if e.Remove? { RowsKeepMarks(s, s.phase.goal); }
  }

  lemma RowsKeepMarks(s: State, g: Goal)
    ensures CommitDone(s, g).missed == s.missed && CommitDone(s, g).stuck == s.stuck
    ensures Removed(s, g).missed == s.missed && Removed(s, g).stuck == s.stuck
  {
    hide Closed;
  }

  lemma {:induction false} LeftNone(s: State, run: seq<Event>, t: State)
    requires s.stuck == {} && Reaches(s, run, t) && RunLeavesNone(s, run)
    ensures t.stuck == {}
    decreases |run|
  {
    hide Closed, CanHappen;
    if run != [] {
      StepLeavesNone(s, run[0]);
      LeftNone(Next(s, run[0]), run[1..], t);
    }
  }

  lemma StepLeavesNone(s: State, e: Event)
    requires s.stuck == {} && CanHappen(s, e) && LeavesNone(s, e)
    ensures Next(s, e).stuck == {}
  {
    hide Closed, CanHappen, Next;
    if e.Commit? { CommitMarks(s, e); }
    else if e.Disable? { DisableMarks(s, e); }
    else if e.Restart? { RestartMarks(s); }
    else { OtherMarks(s, e); }
  }

  /** A closed Launcher is quiesced if none was closed when a daemon started and
      none was created under a disabled Principal. */
  lemma ClosedAreQuiesced(s: State, run: seq<Event>, t: State)
    requires Started(s) && (forall l | l in s.launchers :: !Closed(s, l)) && RunMissesNone(s, run)
    requires Reaches(s, run, t) && t.phase.Idle?
    ensures forall l | l in t.launchers && Closed(t, l) :: l in t.quiesced
  {
    hide Closed;
    AdmissionMirrorsAuthorities(s, run, t);
    assert s.missed == {};
    MissedNone(s, run, t);
  }

  /** A quiesced Launcher is closed if no re-read failed and no enable was unreported. */
  lemma QuiescedAreClosed(s: State, run: seq<Event>, t: State)
    requires Started(s) && RunLeavesNone(s, run) && Reaches(s, run, t) && t.phase.Idle?
    ensures forall l | l in t.launchers && l in t.quiesced :: Closed(t, l)
  {
    hide Closed;
    AdmissionMirrorsAuthorities(s, run, t);
    LeftNone(s, run, t);
  }

  /** Each of these events does break the mirror. A Launcher created under a disabled
      Principal is closed, yet not quiesced. */
  lemma BornClosedIsMissed(s: State, l: string, p: int)
    requires Safe(s) && CanHappen(s, CreateLauncher(l, p)) && !s.principals[p]
    ensures var t := Next(s, CreateLauncher(l, p)); t.phase.Idle? && Closed(t, l) && l !in t.quiesced && l in t.missed
  {
  }

  /** A restart forgets every quiesced Launcher. */
  lemma RestartMisses(s: State, l: string)
    requires l in s.launchers && Closed(s, l)
    ensures var t := Next(s, Restart); t.phase.Idle? && Closed(t, l) && l !in t.quiesced && l in t.missed
  {
  }

  /** An enable that commits unreported opens a Launcher and leaves it quiesced. */
  lemma UnreportedEnableSticks(s: State, l: string)
    requires Safe(s) && s.phase.Idle? && l in s.launchers && l in s.quiesced
    requires !s.launchers[l].enabled && s.principals[s.launchers[l].owner]
    ensures CanHappen(s, Begin(EnableLauncher(l), []))
    ensures var u := Next(s, Begin(EnableLauncher(l), []));
            && CanHappen(u, Commit(Unknown, []))
            && var t := Next(u, Commit(Unknown, [])); t.phase.Idle? && !Closed(t, l) && l in t.quiesced && l in t.stuck
  {
  }

  /** A failed re-read after a failed disable leaves an open Launcher quiesced. */
  lemma FailedRereadSticks(s: State, l: string)
    requires Safe(s) && s.phase.Idle? && l in s.launchers && !Closed(s, l)
    ensures var run := [Begin(DisableLauncher(l), [l]), Quiesce, Advance] +
            [Commit(Failed, []), Restore(false), Advance];
            exists t :: Reaches(s, run, t) && t.phase.Idle? && !Closed(t, l) && l in t.quiesced && l in t.stuck
  {
    hide Reaches, CanHappen, Next, Closed;
    var g := DisableLauncher(l);
    var q := s.(quiesced := s.quiesced + {l}, missed := s.missed - {l});
    var t := q.(stuck := q.stuck + {l}, phase := Idle);
    var c := q.(phase := Committing(g, [l]));
    ClosedSameRows(s, c); ClosedSameRows(s, t);
    LauncherDisableStarts(s, l);
    LauncherDisableFails(c, l);
    assert c.(phase := Restoring([l])) == q.(phase := Restoring([l]));
    ReachesInThree(s, s.(phase := Quiescing(g, [l], 0)), q.(phase := Quiescing(g, [l], 1)), c, Begin(g, [l]), Quiesce,
        Advance);
    ReachesInThree(c, c.(phase := Restoring([l])), t.(phase := Restoring([])), t, Commit(Failed, []), Restore(false),
        Advance);
    ReachesThen(s, [Begin(g, [l]), Quiesce, Advance], c, [Commit(Failed, []), Restore(false), Advance], t);
  }

  lemma ReachesInThree(s: State, t: State, u: State, v: State, a: Event, b: Event, c: Event)
    requires CanHappen(s, a) && Next(s, a) == t && CanHappen(t, b) && Next(t, b) == u && CanHappen(u, c) &&
             Next(u, c) == v
    ensures Reaches(s, [a, b, c], v)
  {
    hide CanHappen, Next;
    assert [a, b, c][1..] == [b, c] && [b, c][1..] == [c] && [c][1..] == [];
    assert Reaches(u, [c], v);
    assert Reaches(t, [b, c], v);
  }

  lemma {:induction false} ReachesThen(s: State, run: seq<Event>, t: State, rest: seq<Event>, u: State)
    requires Reaches(s, run, t) && Reaches(t, rest, u)
    ensures Reaches(s, run + rest, u)
    decreases |run|
  {
    hide CanHappen, Next;
    if run == [] {
      assert run + rest == rest;
    } else {
      ReachesThen(Next(s, run[0]), run[1..], t, rest, u);
      assert (run + rest)[1..] == run[1..] + rest;
    }
  }

  lemma LauncherDisableStarts(s: State, l: string)
    requires s.phase.Idle? && l in s.launchers
    ensures var g, q := DisableLauncher(l), s.(quiesced := s.quiesced + {l}, missed := s.missed - {l});
            && CanHappen(s, Begin(g, [l])) && Next(s, Begin(g, [l])) == s.(phase := Quiescing(g, [l], 0))
            && CanHappen(s.(phase := Quiescing(g, [l], 0)), Quiesce)
            && Next(s.(phase := Quiescing(g, [l], 0)), Quiesce) == q.(phase := Quiescing(g, [l], 1))
            && CanHappen(q.(phase := Quiescing(g, [l], 1)), Advance)
            && Next(q.(phase := Quiescing(g, [l], 1)), Advance) == q.(phase := Committing(g, [l]))
  {
  }

  lemma LauncherDisableFails(s: State, l: string)
    requires s.phase == Committing(DisableLauncher(l), [l]) && l in s.quiesced && !Closed(s, l)
    ensures var stuck := s.(stuck := s.stuck + {l});
            && CanHappen(s, Commit(Failed, [])) && Next(s, Commit(Failed, [])) == s.(phase := Restoring([l]))
            && CanHappen(s.(phase := Restoring([l])), Restore(false))
            && Next(s.(phase := Restoring([l])), Restore(false)) == stuck.(phase := Restoring([]))
            && CanHappen(stuck.(phase := Restoring([])), Advance)
            && Next(stuck.(phase := Restoring([])), Advance) == stuck.(phase := Idle)
  {
    hide Closed, Forgetting, CommitDone, Admissions, Opened;
    ClosedIgnoresPhase(s, s.(phase := Restoring([l])));
    assert [l][1..] == [];
  }
}
