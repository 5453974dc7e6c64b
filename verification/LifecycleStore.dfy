// The checked deletes and enabled-state changes run to their end by one lock
// holder (launcher_lifecycle.go, principal.go, app.go), on the tables and the
// admission map they update. External answers are parameters.
module LifecycleStore {
  import opened Policy
  import opened Lifecycle

  // ------------------------------------------------- runtime inspection

  datatype ContainerClass = Stale | Active | Unrecognized

  /** classifyHelperContainerState. */
  function Classify(state: string): ContainerClass {
    if state in {"created", "exited", "dead"} then Stale
    else if state in {"running", "paused", "restarting", "removing"} then Active
    else Unrecognized
  }

  /** What the Docker listing answered: container states in output order. */
  datatype Listing = ListingFailed | Containers(states: seq<string>)

  datatype Inspection = InspectionFailed | RuntimeActive | RuntimeQuiet

  /** The first container that is not stale decides. */
  function Inspected(listing: Listing): Inspection
    decreases if listing.Containers? then |listing.states| else 0
  {
    match listing
    case ListingFailed => InspectionFailed
    case Containers(states) =>
      if states == [] then RuntimeQuiet
      else if Classify(states[0]) == Stale then Inspected(Containers(states[1..]))
      else if Classify(states[0]) == Active then RuntimeActive
      else InspectionFailed
  }

  /** Container k is the first that is not created, exited or dead. */
  ghost predicate FirstUnsafe(states: seq<string>, k: nat) {
    && k < |states| && states[k] !in {"created", "exited", "dead"}
    && forall i | 0 <= i < k :: states[i] in {"created", "exited", "dead"}
  }

  /** Quiet exactly when the listing succeeded and every container is created, exited or
      dead; otherwise the first other container decides: running, paused, restarting and
      removing are active, any other state fails the inspection. */
  lemma {:induction false} InspectedIff(listing: Listing)
    ensures Inspected(listing).RuntimeQuiet? <==>
            listing.Containers? && forall state | state in listing.states :: state in {"created", "exited", "dead"}
    ensures listing.ListingFailed? ==> Inspected(listing).InspectionFailed?
    ensures listing.Containers? ==> forall k: nat | FirstUnsafe(listing.states, k) ::
              Inspected(listing) ==
              if listing.states[k] in {"running", "paused", "restarting", "removing"} then RuntimeActive
              else InspectionFailed
    decreases if listing.Containers? then |listing.states| else 0
  {
    match listing
    case ListingFailed =>
    case Containers(states) =>
      if states != [] {
        var rest := states[1..];
        InspectedIff(Containers(rest));
        assert states == [states[0]] + rest && states[0] in states;
        assert forall state :: state in states <==> state == states[0] || state in rest;
        forall k: nat | FirstUnsafe(states, k)
          ensures states[0] in {"created", "exited", "dead"} ==>
                  k > 0 && FirstUnsafe(rest, k - 1) && rest[k - 1] == states[k]
          ensures states[0] !in {"created", "exited", "dead"} ==> k == 0
        {
          if k > 0 { assert forall i | 0 <= i < k - 1 :: rest[i] == states[i + 1]; }
        }
      }
  }

  /** A listing that is neither failed nor quiet has such a container. */
  lemma FirstUnsafeExists(states: seq<string>) returns (k: nat)
    requires exists state | state in states :: state !in {"created", "exited", "dead"}
    ensures FirstUnsafe(states, k)
  {
    k := 0;
    while states[k] in {"created", "exited", "dead"}
      invariant k < |states| && forall i | 0 <= i < k :: states[i] in {"created", "exited", "dead"}
      decreases |states| - k
    {
      k := k + 1;
    }
  }

  /** The answers of everything outside the lock holder's own state. */
  datatype World = World(
    listing: string -> Listing,     // docker ps, by Launcher
    cleaned: string -> bool,        // docker rm of its stale containers
    disabled: string -> bool,       // the disable transaction
    reread: string -> bool,         // the authority re-read
    removed: bool)                  // the owner-row removal

  datatype Result = Deleted | StillRunning | Unclassified | NotCleaned | NotDisabled(at: nat) | NotRemoved | Missing

  // ---------------------------------- what a checked delete must have seen

  ghost predicate AllSafe(listing: Listing) {
    listing.Containers? && forall state | state in listing.states :: state in {"created", "exited", "dead"}
  }

  /** No Operation of Launcher l runs and every container of it is safe to remove. */
  ghost predicate RuntimeGone(s: State, l: string, world: World) {
    (forall o | o in s.ops && s.ops[o].launcher == l :: !s.ops[o].running) && AllSafe(world.listing(l))
  }

  /** An Operation of l runs, or its first unsafe container is running, paused, restarting or removing. */
  ghost predicate RuntimeBusy(s: State, l: string, world: World) {
    || (exists o | o in s.ops && s.ops[o].launcher == l :: s.ops[o].running)
    || (world.listing(l).Containers? && exists k: nat :: ActiveFirst(world.listing(l).states, k))
  }

  ghost predicate ActiveFirst(states: seq<string>, k: nat) {
    FirstUnsafe(states, k) && states[k] in {"running", "paused", "restarting", "removing"}
  }

  function InspectionOf(s: State, l: string, world: World): Inspection {
    if exists o | o in s.ops && s.ops[o].launcher == l :: s.ops[o].running then RuntimeActive
    else Inspected(world.listing(l))
  }

  lemma InspectionOfIff(s: State, l: string, world: World)
    ensures InspectionOf(s, l, world).RuntimeQuiet? <==> RuntimeGone(s, l, world)
    ensures InspectionOf(s, l, world).RuntimeActive? <==> RuntimeBusy(s, l, world)
  {
    hide FirstUnsafe, Inspected;
    var listing := world.listing(l);
    InspectedIff(listing);
    if listing.Containers? && !Inspected(listing).RuntimeQuiet? {
      var k := FirstUnsafeExists(listing.states);
      FirstUnsafeBound(listing.states, k);
      assert Inspected(listing).RuntimeActive? <==> ActiveFirst(listing.states, k);
      forall j: nat | FirstUnsafe(listing.states, j) ensures j == k { FirstUnsafeOnce(listing.states, j, k); }
    }
    if listing.Containers? && Inspected(listing).RuntimeQuiet? { SafeHasNoUnsafe(listing.states); }
  }

  lemma FirstUnsafeBound(states: seq<string>, k: nat)
    requires FirstUnsafe(states, k)
    ensures k < |states|
  {
  }

  lemma FirstUnsafeOnce(states: seq<string>, j: nat, k: nat)
    requires FirstUnsafe(states, j) && FirstUnsafe(states, k)
    ensures j == k
  {
  }

  lemma SafeHasNoUnsafe(states: seq<string>)
    requires forall state | state in states :: state in {"created", "exited", "dead"}
    ensures forall k: nat :: !FirstUnsafe(states, k)
  {
    assert forall k: nat | k < |states| :: states[k] in states;
  }

  /** Child k is the first whose runtime is not gone. */
  ghost predicate FirstLeft(s: State, ids: seq<string>, world: World, k: nat) {
    k < |ids| && !RuntimeGone(s, ids[k], world) && forall i | 0 <= i < k :: RuntimeGone(s, ids[i], world)
  }

  /** The check passes exactly if the runtime of every child is gone; else the first other child decides. */
  lemma {:induction false} FirstRefusalIff(s: State, ids: seq<string>, world: World)
    ensures FirstRefusal(s, ids, world).RuntimeQuiet? <==> forall l | l in ids :: RuntimeGone(s, l, world)
    ensures forall k: nat | FirstLeft(s, ids, world, k) ::
              FirstRefusal(s, ids, world) == if RuntimeBusy(s, ids[k], world) then RuntimeActive else InspectionFailed
  {
    hide RuntimeGone, RuntimeBusy, Inspected;
    if ids != [] {
      InspectionOfIff(s, ids[0], world);
      FirstRefusalStep(s, ids, world);
      var rest := ids[1..];
      FirstRefusalIff(s, rest, world);
      assert ids == [ids[0]] + rest && ids[0] in ids;
      assert forall l :: l in ids <==> l == ids[0] || l in rest;
      forall k: nat | FirstLeft(s, ids, world, k)
        ensures k > 0 ==> FirstLeft(s, rest, world, k - 1) && rest[k - 1] == ids[k]
      {
        if k > 0 { assert forall i | 0 <= i < k - 1 :: rest[i] == ids[i + 1]; }
      }
    }
  }

  lemma FirstRefusalStep(s: State, ids: seq<string>, world: World)
    requires ids != []
    ensures InspectionOf(s, ids[0], world).RuntimeQuiet? ==>
            FirstRefusal(s, ids, world) == FirstRefusal(s, ids[1..], world)
    ensures !InspectionOf(s, ids[0], world).RuntimeQuiet? ==>
            FirstRefusal(s, ids, world) == InspectionOf(s, ids[0], world)
  {
    QuietIff(s, ids[0]);
  }

  // --------------------------------------------- prefixes of Launchers

  function Prefix(ids: seq<string>, n: nat): set<string>
    requires n <= |ids|
  {
    set i | 0 <= i < n :: ids[i]
  }

  lemma PrefixStep(ids: seq<string>, n: nat)
    requires n < |ids|
    ensures Prefix(ids, n + 1) == Prefix(ids, n) + {ids[n]}
  {
  }

  lemma PrefixMembers(ids: seq<string>, n: nat)
    requires n < |ids| && forall i, j | 0 <= i < j < |ids| :: ids[i] != ids[j]
    ensures forall l | l in Prefix(ids, n) :: l in ids && l != ids[n]
  {
  }

  lemma PrefixAll(ids: seq<string>)
    ensures Prefix(ids, 0) == {} && forall l :: l in Prefix(ids, |ids|) <==> l in ids
  {
  }

  /** The rows with the Launchers of ls disabled. */
  function RowsDisabled(launchers: map<string, Row>, ls: set<string>): map<string, Row> {
    map l | l in launchers :: if l in ls then launchers[l].(enabled := false) else launchers[l]
  }

  function SessionsWithout(sessions: map<string, string>, ls: set<string>): map<string, string> {
    map x | x in sessions && sessions[x] !in ls :: sessions[x]
  }

  /** The listed Sessions are exactly those that went, each once. */
  ghost predicate Accounts(before: map<string, string>, after: map<string, string>, revoked: seq<string>) {
    && (forall x :: x in revoked <==> x in before && x !in after)
    && (forall i, j | 0 <= i < j < |revoked| :: revoked[i] != revoked[j])
    && (forall x | x in after :: x in before && after[x] == before[x])
  }

  lemma AccountsThen(a: map<string, string>, b: map<string, string>, c: map<string, string>, r: seq<string>,
      q: seq<string>)
    requires Accounts(a, b, r) && Accounts(b, c, q)
    ensures Accounts(a, c, r + q)
  {
    forall i, j | 0 <= i < j < |r + q| ensures (r + q)[i] != (r + q)[j] {
      if i < |r| <= j {
        assert r[i] in r && q[j - |r|] in q;
      }
    }
  }

  class Store {
    var principals: map<int, bool>
    var launchers: map<string, Row>
    var sessions: map<string, string>
    var quiesced: set<string>
    var ops: map<string, Op>

    function State(): State
      reads this
    {
      Lifecycle.State.State(principals, launchers, sessions, quiesced, ops, map[], launchers.Keys, Idle, {}, {})
    }

    /** Every closed Launcher row is quiesced. */
    ghost predicate ClosedAreQuiesced()
      reads this
    {
      forall l | l in launchers && Closed(State(), l) :: l in quiesced
    }

    constructor ()
      ensures principals == map[] && launchers == map[] && sessions == map[] && quiesced == {} && ops == map[]
    {
      principals, launchers, sessions, quiesced, ops := map[], map[], map[], {}, map[];
    }

    // ------------------------------------------------------- admission

    method QuiesceLauncher(l: string)
      modifies this`quiesced
      ensures quiesced == old(quiesced) + {l}
    {
      quiesced := quiesced + {l};
    }

    method SetQuiesced(l: string, closed: bool)
      modifies this`quiesced
      ensures quiesced == Set(old(quiesced), l, closed)
    {
      if closed { quiesced := quiesced + {l}; } else { quiesced := quiesced - {l}; }
    }

    /** syncLauncherAdmission: a failed re-read leaves admission as it is. */
    method SyncAdmission(l: string, reread: bool) returns (ok: bool)
      modifies this`quiesced
      ensures ok == reread
      ensures quiesced == if reread then Set(old(quiesced), l, Closed(old(State()), l)) else old(quiesced)
    {
      if !reread { return false; }
      var closed := Closed(State(), l);
      SetQuiesced(l, closed);
      return true;
    }

    /** The restore loop after a refusal: fail closed, one Launcher at a time. */
    method RestoreAdmission(ids: seq<string>, reread: string -> bool)
      modifies this`quiesced
      ensures forall l :: l in quiesced <==>
                if l in ids && reread(l) then Closed(old(State()), l) else l in old(quiesced)
      ensures old(ClosedAreQuiesced()) ==> ClosedAreQuiesced()
    {
      ghost var was := State();
      for i := 0 to |ids|
        invariant forall l ::
                  l in quiesced <==> if l in ids[..i] && reread(l) then Closed(was, l) else l in was.quiesced
        invariant forall l :: Closed(State(), l) <==> Closed(was, l)
      {
        var ok := SyncAdmission(ids[i], reread(ids[i]));
        assert ids[..i + 1] == ids[..i] + [ids[i]];
      }
      assert ids[..|ids|] == ids;
    }

    /** hasRunningForLauncher. */
    method HasRunning(l: string) returns (running: bool)
      ensures running <==> !Quiet(State(), l)
    {
      var candidates := set o | o in ops && ops[o].launcher == l;
      while candidates != {}
        invariant candidates <= ops.Keys
        invariant forall o | o in ops && ops[o].launcher == l && ops[o].running :: o in candidates
        invariant forall o | o in candidates :: ops[o].launcher == l
        decreases candidates
      {
        var o :| o in candidates;
        if ops[o].running { return true; }
        candidates := candidates - {o};
      }
      return false;
    }

    /** inspectLauncherRuntime: the supervisor first, then the containers. */
    method InspectRuntime(l: string, listing: Listing) returns (result: Inspection)
      ensures result == if Quiet(State(), l) then Inspected(listing) else RuntimeActive
      ensures result.RuntimeQuiet? <==>
                (forall o | o in ops && ops[o].launcher == l :: !ops[o].running) && listing.Containers? &&
                forall state | state in listing.states :: state in {"created", "exited", "dead"}
    {
      InspectedIff(listing);
      var running := HasRunning(l);
      if running { return RuntimeActive; }
      if listing.ListingFailed? { return InspectionFailed; }
      for i := 0 to |listing.states|
        invariant Inspected(Containers(listing.states[i..])) == Inspected(listing)
      {
        assert listing.states[i..][1..] == listing.states[i + 1..];
        match Classify(listing.states[i]) {
          case Active => return RuntimeActive;
          case Unrecognized => return InspectionFailed;
          case Stale =>
        }
      }
      return RuntimeQuiet;
    }

    // --------------------------------------------------- durable changes

    /** The Sessions of the Launchers ls, collected and deleted in one transaction. */
    method RevokeSessions(ls: set<string>) returns (revoked: seq<string>)
      modifies this`sessions
      ensures sessions == SessionsWithout(old(sessions), ls)
      ensures forall x :: x in revoked <==> x in old(sessions) && old(sessions)[x] in ls
      ensures Accounts(old(sessions), sessions, revoked)
    {
      revoked := [];
      var left := set x | x in sessions && sessions[x] in ls;
      ghost var all := left;
      while left != {}
        invariant left <= all && forall x :: x in revoked <==> x in all && x !in left
        invariant forall i, j | 0 <= i < j < |revoked| :: revoked[i] != revoked[j]
        decreases left
      {
        var x :| x in left;
        revoked, left := revoked + [x], left - {x};
      }
      sessions := SessionsWithout(sessions, ls);
    }

    /** disableLauncherLocked: on a failed transaction admission is re-read instead. */
    method DisableLauncher(l: string, commits: bool, reread: bool) returns (ok: bool, revoked: seq<string>)
      modifies this`launchers, this`sessions, this`quiesced
      ensures ok <==> commits && l in old(launchers)
      ensures launchers == if ok then RowsDisabled(old(launchers), {l}) else old(launchers)
      ensures sessions == if ok then SessionsWithout(old(sessions), {l}) else old(sessions)
      ensures ok ==> launchers == old(launchers)[l := old(launchers)[l].(enabled := false)]
      ensures ok ==> forall x :: x in sessions <==> x in old(sessions) && old(sessions)[x] != l
      ensures quiesced == if ok || !reread then old(quiesced) + {l} else Set(old(quiesced), l, Closed(old(State()), l))
      ensures Accounts(old(sessions), sessions, revoked)
      ensures old(ClosedAreQuiesced()) ==> ClosedAreQuiesced()
    {
      ghost var was := State();
      QuiesceLauncher(l);
      if !commits || l !in launchers {
        assert forall k :: Closed(State(), k) <==> Closed(was, k);
        var synced := SyncAdmission(l, reread);
        assert forall k :: Closed(State(), k) <==> Closed(was, k);
        return false, [];
      }
      revoked := RevokeSessions({l});
      launchers := RowsDisabled(launchers, {l});
      assert forall k | k in launchers && k != l :: Closed(State(), k) <==> Closed(was, k);
      return true, revoked;
    }

    /** deleteLauncherRow: a referencing Session makes the foreign key refuse it. */
    method DeleteLauncherRow(l: string, commits: bool) returns (ok: bool)
      modifies this`launchers
      ensures ok <==> commits && l in old(launchers) && !(exists x | x in sessions :: sessions[x] == l)
      ensures launchers == if ok then old(launchers) - {l} else old(launchers)
    {
      if l !in launchers { return false; }
      if exists x | x in sessions :: sessions[x] == l { return false; }
      if !commits { return false; }
      launchers := launchers - {l};
      return true;
    }

    // ------------------------------------------- enabled-state changes

    /** updateLauncherWithLifecycle without a rename: a disable quiesces first and
        stays quiesced, an enable applies the admission decided with the commit. */
    method SetLauncherEnabled(l: string, enabled: bool, commits: bool, reread: bool)
        returns (ok: bool, revoked: seq<string>)
      modifies this`launchers, this`sessions, this`quiesced
      ensures ok <==> commits && l in old(launchers)
      ensures launchers == if ok then old(launchers)[l := old(launchers)[l].(enabled := enabled)] else old(launchers)
      ensures sessions == if ok && !enabled then SessionsWithout(old(sessions), {l}) else old(sessions)
      ensures Accounts(old(sessions), sessions, revoked)
      ensures ok && enabled ==> (l in quiesced <==> Closed(State(), l))
      ensures ok && !enabled ==> l in quiesced
      ensures forall k | k != l :: k in quiesced <==> k in old(quiesced)
      ensures old(ClosedAreQuiesced()) ==> ClosedAreQuiesced()
    {
      ghost var was := State();
      if l !in launchers { return false, []; }
      if !enabled {
        ok, revoked := DisableLauncher(l, commits, reread);
        if ok { assert launchers == was.launchers[l := was.launchers[l].(enabled := false)]; }
        return;
      }
      if !commits { return false, []; }
      launchers := launchers[l := launchers[l].(enabled := true)];
      var closed := Closed(State(), l);
      assert forall k | k in launchers && k != l :: Closed(State(), k) <==> Closed(was, k);
      ghost var after := State();
      SetQuiesced(l, closed);
      SameRows(after, State());
      return true, [];
    }

    /** disablePrincipalLaunchers: every child quiesced before the transaction, and
        re-read if it fails. A Principal that is disabled already loses no Session. */
    method DisablePrincipal(p: int, ids: seq<string>, commits: bool, reread: string -> bool)
      returns (ok: bool, changed: bool, revoked: seq<string>)
      requires p in principals && Children(State(), p, ids)
      modifies this`principals, this`sessions, this`quiesced
      ensures ok == commits && (changed <==> ok && old(principals)[p])
      ensures principals == if ok then old(principals)[p := false] else old(principals)
      ensures sessions == if changed then SessionsWithout(old(sessions), Owned(old(State()), p)) else old(sessions)
      ensures Accounts(old(sessions), sessions, revoked)
      ensures ok ==> forall l | l in ids :: l in quiesced
      ensures !ok ==> forall l | l in ids && reread(l) :: l in quiesced <==> Closed(State(), l)
      ensures old(ClosedAreQuiesced()) ==> ClosedAreQuiesced()
    {
      hide Accounts;
      ghost var was := State();
      DisableStarts(ids, launchers, sessions);
      QuiesceAll(ids);
      SameRows(was, State());
      if !commits {
        RestoreAdmission(ids, reread);
        SameRows(was, State());
        return false, false, [];
      }
      if !principals[p] { return true, false, []; }
      revoked := RevokeSessions(Owned(State(), p));
      principals := principals[p := false];
      assert forall l | l in launchers && launchers[l].owner != p :: Closed(State(), l) <==> Closed(was, l);
      return true, true, revoked;
    }

    /** enablePrincipalLaunchers: a child opens only if it is enabled itself. */
    method EnablePrincipal(p: int, ids: seq<string>, commits: bool) returns (ok: bool, changed: bool)
      requires p in principals && Children(State(), p, ids)
      modifies this`principals, this`quiesced
      ensures ok == commits && (changed <==> ok && !old(principals)[p])
      ensures principals == if ok then old(principals)[p := true] else old(principals)
      ensures !ok ==> quiesced == old(quiesced)
      ensures ok ==> forall l | l in ids :: l in quiesced <==> !launchers[l].enabled
      ensures old(ClosedAreQuiesced()) ==> ClosedAreQuiesced()
    {
      ghost var was := State();
      if !commits { return false, false; }
      changed := !principals[p];
      principals := principals[p := true];
      for i := 0 to |ids|
        invariant forall l :: l in quiesced <==> if l in ids[..i] then Closed(State(), l) else l in was.quiesced
        invariant State() == was.(principals := principals, quiesced := quiesced) &&
                  principals == was.principals[p := true]
      {
        assert ids[i] in ids;
        SetQuiesced(ids[i], Closed(State(), ids[i]));
        assert ids[..i + 1] == ids[..i] + [ids[i]];
      }
      assert ids[..|ids|] == ids;
      assert forall l | l in launchers && launchers[l].owner != p :: Closed(State(), l) <==> Closed(was, l);
      return true, changed;
    }

    // ------------------------------------------------- checked deletion

    /** deleteLauncherChecked: a refusal before the disable leaves every row alone,
        a refusal after it a disabled Launcher without Sessions. */
    method DeleteLauncherChecked(l: string, world: World) returns (result: Result, revoked: seq<string>)
      modifies this`launchers, this`sessions, this`quiesced
      ensures result == old(LauncherVerdict(l, world))
      ensures result.Deleted? ==> old(RuntimeGone(State(), l, world))
      ensures launchers == match result
                           case Deleted => old(launchers) - {l}
                           case NotRemoved => RowsDisabled(old(launchers), {l})
                           case _ => old(launchers)
      ensures sessions == if result.Deleted? || result.NotRemoved? then SessionsWithout(old(sessions), {l})
              else old(sessions)
      ensures Accounts(old(sessions), sessions, revoked)
      ensures old(ClosedAreQuiesced()) ==> ClosedAreQuiesced()
      ensures result.Deleted? || result.NotRemoved? ==> l in quiesced
      ensures !result.Deleted? && !result.NotRemoved? && world.reread(l) ==>
              (l in quiesced <==> Closed(old(State()), l))
    {
      hide Closed, Quiet, Inspected, Accounts, RuntimeGone;
      ghost var was := State();
      revoked := [];
      LauncherVerdictIff(l, world);
      NothingRevoked(sessions);
      QuietIff(was, l);
      QuiesceLauncher(l);
      SameRows(was, State());
      var inspection := InspectRuntime(l, world.listing(l));
      if inspection != RuntimeQuiet {
        RestoreAdmission([l], world.reread);
        SameRows(was, State());
        return if inspection.RuntimeActive? then StillRunning else Unclassified, [];
      }
      if !world.cleaned(l) {
        RestoreAdmission([l], world.reread);
        SameRows(was, State());
        return NotCleaned, [];
      }
      ghost var checked := State();
      var ok;
      ok, revoked := DisableLauncher(l, world.disabled(l), world.reread(l));
      if !ok {
        SameRows(was, State());
        return NotDisabled(0), revoked;
      }
      ghost var disabled := State();
      var removed := DeleteLauncherRow(l, world.removed);
      if !removed {
        SameRows(disabled, State());
        return NotRemoved, revoked;
      }
      OneRowLess(disabled, State(), l);
      assert launchers == was.launchers - {l};
      return Deleted, revoked;
    }

    /** The children of a Principal are inspected in listing order; the first that is
        not quiet refuses the delete. */
    method InspectAll(ids: seq<string>, world: World) returns (refusal: Inspection)
      ensures refusal == FirstRefusal(State(), ids, world)
    {
      hide Quiet, Inspected;
      for i := 0 to |ids|
        invariant FirstRefusal(State(), ids, world) == FirstRefusal(State(), ids[i..], world)
      {
        assert ids[i..][1..] == ids[i + 1..];
        var inspection := InspectRuntime(ids[i], world.listing(ids[i]));
        if inspection != RuntimeQuiet { return inspection; }
      }
      return RuntimeQuiet;
    }

    /** The disable loop: it stops at the first transaction that fails. */
    method DisableAll(ids: seq<string>, world: World) returns (done: nat, revoked: seq<string>)
      requires (forall l | l in ids :: l in launchers) && forall i, j | 0 <= i < j < |ids| :: ids[i] != ids[j]
      requires forall l | l in ids :: l in quiesced
      modifies this`launchers, this`sessions, this`quiesced
      ensures done <= |ids| && (forall i | 0 <= i < done :: world.disabled(ids[i])) &&
              (done < |ids| ==> !world.disabled(ids[done]))
      ensures launchers == RowsDisabled(old(launchers), Prefix(ids, done))
      ensures sessions == SessionsWithout(old(sessions), Prefix(ids, done))
      ensures Accounts(old(sessions), sessions, revoked)
      ensures forall l | l in Prefix(ids, done) :: l in quiesced
      ensures done < |ids| && world.reread(ids[done]) ==> (ids[done] in quiesced <==> Closed(old(State()), ids[done]))
      ensures old(ClosedAreQuiesced()) ==> ClosedAreQuiesced()
    {
      hide Closed, Prefix, RowsDisabled, SessionsWithout, Accounts;
      revoked := [];
      done := 0;
      ghost var rows, held, closedBefore, was := launchers, sessions, ClosedAreQuiesced(), State();
      DisableStarts(ids, launchers, sessions);
      while done < |ids|
        invariant done <= |ids| && forall i | 0 <= i < done :: world.disabled(ids[i])
        invariant launchers == RowsDisabled(rows, Prefix(ids, done)) && launchers.Keys == rows.Keys
        invariant sessions == SessionsWithout(held, Prefix(ids, done))
        invariant Accounts(held, sessions, revoked)
        invariant quiesced >= old(quiesced)
        invariant closedBefore ==> ClosedAreQuiesced()
      {
        ghost var now, had, before := sessions, revoked, State();
        var ok, ended := DisableLauncher(ids[done], world.disabled(ids[done]), world.reread(ids[done]));
        DisableStep(ids, done, rows, held);
        AccountsThen(held, now, sessions, had, ended);
        PrefixMembers(ids, done);
        OthersDisabled(was, before, Prefix(ids, done), ids[done]);
        if !ok { return; }
        revoked := revoked + ended;
        done := done + 1;
      }
      PrefixAll(ids);
    }

    method QuiesceAll(ids: seq<string>)
      modifies this`quiesced
      ensures forall l :: l in quiesced <==> l in old(quiesced) || l in ids
    {
      for i := 0 to |ids|
        invariant forall l :: l in quiesced <==> l in old(quiesced) || l in ids[..i]
      {
        QuiesceLauncher(ids[i]);
        assert ids[..i + 1] == ids[..i] + [ids[i]];
      }
      assert ids[..|ids|] == ids;
    }

    /** deletePrincipal: its Sessions first, then the row; Launchers follow by cascade. */
    method RemovePrincipal(p: int) returns (revoked: seq<string>)
      modifies this`principals, this`launchers, this`sessions
      ensures principals == old(principals) - {p} && launchers == old(launchers) - Owned(old(State()), p)
      ensures sessions == SessionsWithout(old(sessions), Owned(old(State()), p))
      ensures Accounts(old(sessions), sessions, revoked)
    {
      var owned := Owned(State(), p);
      revoked := RevokeSessions(owned);
      launchers := launchers - owned;
      principals := principals - {p};
    }

    /** deletePrincipalChecked, for the children `ids` in the order the query lists
        them: the check comes before any durable change, the disables run in order
        and stop at the first that fails, and the returned Sessions are exactly
        those that were removed. */
    method DeletePrincipalChecked(p: int, ids: seq<string>, world: World) returns (result: Result, revoked: seq<string>)
      requires p in principals ==> Children(State(), p, ids) && forall i, j | 0 <= i < j < |ids| :: ids[i] != ids[j]
      modifies this
      ensures ops == old(ops)
      ensures Accounts(old(sessions), sessions, revoked)
      ensures result == old(PrincipalVerdict(p, ids, world))
      ensures result.Deleted? ==> forall l | l in ids :: old(RuntimeGone(State(), l, world))
      ensures result.Missing? || result.StillRunning? || result.Unclassified? || result.NotCleaned? ==>
                principals == old(principals) && launchers == old(launchers) && sessions == old(sessions)
      ensures result.StillRunning? || result.Unclassified? || result.NotCleaned? ==>
                forall l | l in ids && world.reread(l) :: l in quiesced <==> Closed(old(State()), l)
      ensures result.NotDisabled? && result.at < |ids| ==>
                forall l | l in ids[result.at..] && world.reread(l) :: l in quiesced <==> Closed(old(State()), l)
      ensures result.NotDisabled? ==>
                && result.at < |ids| && !world.disabled(ids[result.at])
                && principals == old(principals) && launchers == RowsDisabled(old(launchers), Prefix(ids, result.at))
                && sessions == SessionsWithout(old(sessions), Prefix(ids, result.at))
                && forall l | l in Prefix(ids, result.at) :: l in quiesced
      ensures result.NotRemoved? ==>
                && principals == old(principals) && launchers == RowsDisabled(old(launchers), Prefix(ids, |ids|))
                && sessions == SessionsWithout(old(sessions), Prefix(ids, |ids|))
                && forall l | l in ids :: l in quiesced
      ensures result.Deleted? ==>
                && principals == old(principals) - {p} && launchers == old(launchers) - old(Owned(State(), p))
                && sessions == SessionsWithout(old(sessions), old(Owned(State(), p)))
                && forall l | l in ids :: l in quiesced
      ensures old(ClosedAreQuiesced()) ==> ClosedAreQuiesced()
    {
      hide Closed, Quiet, FirstRefusal, Prefix, RowsDisabled, SessionsWithout, Accounts, RuntimeGone;
      FirstRefusalIff(State(), ids, world);
      ghost var was := State();
      revoked := [];
      DisableStarts(ids, launchers, sessions);
      if p !in principals { return Missing, []; }
      QuiesceAll(ids);
      SameRows(was, State());
      SameRefusal(was, State(), ids, world);
      var refusal := InspectAll(ids, world);
      if refusal != RuntimeQuiet {
        RestoreAdmission(ids, world.reread);
        SameRows(was, State());
        return if refusal.RuntimeActive? then StillRunning else Unclassified, [];
      }
      for i := 0 to |ids|
        invariant State() == was.(quiesced := quiesced) && (ClosedAreQuiesced() || !old(ClosedAreQuiesced()))
        invariant forall l | l in ids :: l in quiesced
        invariant forall k | 0 <= k < i :: world.cleaned(ids[k])
      {
        if !world.cleaned(ids[i]) {
          assert ids[i] in ids;
          RestoreAdmission(ids, world.reread);
          SameRows(was, State());
          return NotCleaned, [];
        }
      }
      var done;
      done, revoked := DisableAll(ids, world);
      FirstFailureIs(ids, world, done);
      if done < |ids| {
        ghost var partial := State();
        ghost var q := quiesced;
        RestoreAdmission(ids[done + 1..], world.reread);
        RestoredTail(partial, ids, done);
        TailAsBefore(was, partial, ids, done);
        return NotDisabled(done), revoked;
      }
      PrefixAll(ids);
      if !world.removed { return NotRemoved, revoked; }
      ghost var disabled := State();
      OwnedAll(was, disabled, p, ids);
      var unused := RemovePrincipal(p);
      RemovedAll(was, disabled, Prefix(ids, |ids|));
      RowsLess(disabled, State());
      return Deleted, revoked;
    }

    /** How a Principal delete must end: the first child that is not quiet, then any
        failed cleanup, then the first failed disable, then the removal decide. */
    ghost function PrincipalVerdict(p: int, ids: seq<string>, world: World): Result
      reads this
    {
      if p !in principals then Missing
      else if FirstRefusal(State(), ids, world).RuntimeActive? then StillRunning
      else if FirstRefusal(State(), ids, world).InspectionFailed? then Unclassified
      else if exists l | l in ids :: !world.cleaned(l) then NotCleaned
      else if FirstFailure(ids, world) < |ids| then NotDisabled(FirstFailure(ids, world))
      else if !world.removed then NotRemoved
      else Deleted
    }

    /** How a Launcher delete must end. */
    function LauncherVerdict(l: string, world: World): Result
      reads this
    {
      if exists o | o in ops && ops[o].launcher == l :: ops[o].running then StillRunning
      else if Inspected(world.listing(l)).RuntimeActive? then StillRunning
      else if Inspected(world.listing(l)).InspectionFailed? then Unclassified
      else if !world.cleaned(l) then NotCleaned
      else if !world.disabled(l) || l !in launchers then NotDisabled(0)
      else if !world.removed then NotRemoved
      else Deleted
    }

    /** Every verdict of a Launcher delete, in terms of what was seen. */
    lemma LauncherVerdictIff(l: string, world: World)
      ensures var result, gone := LauncherVerdict(l, world), RuntimeGone(State(), l, world);
              && (result.StillRunning? <==> RuntimeBusy(State(), l, world))
              && (result.Unclassified? <==> !gone && !RuntimeBusy(State(), l, world))
              && (result.NotCleaned? <==> gone && !world.cleaned(l))
              && (result == NotDisabled(0) <==> gone && world.cleaned(l) && !(world.disabled(l) && l in launchers))
              && (result.NotRemoved? <==>
                  gone && world.cleaned(l) && world.disabled(l) && l in launchers && !world.removed)
              && (result.Deleted? <==>
                  gone && world.cleaned(l) && world.disabled(l) && l in launchers && world.removed)
    {
      hide RuntimeGone, RuntimeBusy, Inspected;
      InspectionOfIff(State(), l, world);
    }

    /** Every verdict of a Principal delete. */
    lemma PrincipalVerdictIff(p: int, ids: seq<string>, world: World)
      ensures var result := PrincipalVerdict(p, ids, world);
              var checked := p in principals && forall l | l in ids :: RuntimeGone(State(), l, world);
              var cleaned := checked && forall l | l in ids :: world.cleaned(l);
              var disabled := cleaned && forall l | l in ids :: world.disabled(l);
              && (result.Missing? <==> p !in principals)
              && (result.StillRunning? || result.Unclassified? <==> p in principals && !checked)
              && (p in principals ==> forall k: nat | FirstLeft(State(), ids, world, k) ::
                    result == if RuntimeBusy(State(), ids[k], world) then StillRunning else Unclassified)
              && (result.NotCleaned? <==> checked && !cleaned)
              && (result.NotDisabled? <==> cleaned && !disabled)
              && (result.NotDisabled? ==>
                    result.at < |ids| && !world.disabled(ids[result.at]) &&
                    forall i | 0 <= i < result.at :: world.disabled(ids[i]))
              && (result.NotRemoved? <==> disabled && !world.removed)
              && (result.Deleted? <==> disabled && world.removed)
    {
      hide RuntimeGone, RuntimeBusy, FirstRefusal;
      FirstRefusalIff(State(), ids, world);
      FirstFailureAt(ids, world);
    }
  }

  lemma NothingRevoked(sessions: map<string, string>)
    ensures Accounts(sessions, sessions, [])
  {
  }

  lemma QuietIff(s: State, l: string)
    ensures Quiet(s, l) <==> !(exists o | o in s.ops && s.ops[o].launcher == l :: s.ops[o].running)
  {
  }

  lemma SameRows(s: State, t: State)
    requires t.principals == s.principals && t.launchers == s.launchers
    ensures forall l :: Closed(t, l) <==> Closed(s, l)
    ensures t.ops == s.ops ==> forall l :: Quiet(t, l) <==> Quiet(s, l)
  {
  }

  lemma OneRowLess(s: State, t: State, l: string)
    requires t.principals == s.principals && t.launchers == s.launchers - {l}
    ensures forall k | k in t.launchers :: Closed(t, k) <==> Closed(s, k)
  {
  }

  ghost function FirstRefusal(s: State, ids: seq<string>, world: World): Inspection {
    if ids == [] then RuntimeQuiet
    else
      var first := if Quiet(s, ids[0]) then Inspected(world.listing(ids[0])) else RuntimeActive;
      if first == RuntimeQuiet then FirstRefusal(s, ids[1..], world) else first
  }

  /** Index of the first Launcher whose disable fails, the length if none does. */
  function FirstFailure(ids: seq<string>, world: World): (n: nat)
    ensures n <= |ids|
  {
    if ids == [] || !world.disabled(ids[0]) then 0 else 1 + FirstFailure(ids[1..], world)
  }

  lemma {:induction false} FirstFailureAt(ids: seq<string>, world: World)
    ensures var n := FirstFailure(ids, world);
            && (forall i | 0 <= i < n :: world.disabled(ids[i]))
            && (n < |ids| ==> !world.disabled(ids[n]))
    ensures FirstFailure(ids, world) == |ids| <==> forall l | l in ids :: world.disabled(l)
  {
    if ids != [] {
      FirstFailureAt(ids[1..], world);
      assert ids == [ids[0]] + ids[1..] && ids[0] in ids;
    }
  }

  lemma {:induction false} FirstFailureIs(ids: seq<string>, world: World, n: nat)
    requires n <= |ids| && (forall i | 0 <= i < n :: world.disabled(ids[i])) && (n < |ids| ==> !world.disabled(ids[n]))
    ensures FirstFailure(ids, world) == n
  {
    if n > 0 { FirstFailureIs(ids[1..], world, n - 1); }
  }

  lemma DisableStarts(ids: seq<string>, rows: map<string, Row>, held: map<string, string>)
    ensures RowsDisabled(rows, Prefix(ids, 0)) == rows && SessionsWithout(held, Prefix(ids, 0)) == held
    ensures Accounts(held, held, [])
  {
  }

  lemma DisableStep(ids: seq<string>, n: nat, rows: map<string, Row>, held: map<string, string>)
    requires n < |ids|
    ensures RowsDisabled(RowsDisabled(rows, Prefix(ids, n)), {ids[n]}) == RowsDisabled(rows, Prefix(ids, n + 1))
    ensures SessionsWithout(SessionsWithout(held, Prefix(ids, n)), {ids[n]}) == SessionsWithout(held,
            Prefix(ids, n + 1))
    ensures RowsDisabled(RowsDisabled(rows, Prefix(ids, n)), {ids[n]}).Keys == rows.Keys
  {
    PrefixStep(ids, n);
  }

  lemma SameRefusal(s: State, t: State, ids: seq<string>, world: World)
    requires forall l :: Quiet(t, l) <==> Quiet(s, l)
    ensures FirstRefusal(t, ids, world) == FirstRefusal(s, ids, world)
  {
    hide Quiet, Inspected;
    if ids != [] { SameRefusal(s, t, ids[1..], world); }
  }

  lemma OwnedAll(s: State, t: State, p: int, ids: seq<string>)
    requires Children(s, p, ids)
    requires t.launchers == RowsDisabled(s.launchers, Prefix(ids, |ids|))
    ensures Owned(t, p) == Owned(s, p) == Prefix(ids, |ids|)
  {
    PrefixAll(ids);
  }

  /** Once disabled, the Launchers have no Sessions left to remove. */
  lemma RemovedAll(s: State, t: State, ls: set<string>)
    requires t.launchers == RowsDisabled(s.launchers, ls) && t.sessions == SessionsWithout(s.sessions, ls)
    ensures t.launchers - ls == s.launchers - ls
    ensures SessionsWithout(t.sessions, ls) == t.sessions
  {
  }

  lemma RowsLess(s: State, t: State)
    requires t.launchers.Keys <= s.launchers.Keys && forall l | l in t.launchers :: t.launchers[l] == s.launchers[l]
    requires t.principals.Keys <= s.principals.Keys && forall q | q in t.principals ::
             t.principals[q] == s.principals[q]
    ensures forall l | l in t.launchers && Closed(t, l) :: Closed(s, l)
  {
  }

  lemma RestoredTail(s: State, ids: seq<string>, n: nat)
    requires n < |ids| && forall i, j | 0 <= i < j < |ids| :: ids[i] != ids[j]
    ensures forall l | l in Prefix(ids, n) :: l !in ids[n + 1..]
  {
  }

  /** Disabling some Launchers does not close others. */
  lemma OthersDisabled(s: State, t: State, ls: set<string>, l: string)
    requires t.launchers == RowsDisabled(s.launchers, ls) && t.principals == s.principals && l !in ls
    ensures Closed(t, l) <==> Closed(s, l)
  {
  }

  lemma TailAsBefore(s: State, t: State, ids: seq<string>, n: nat)
    requires n < |ids| && forall i, j | 0 <= i < j < |ids| :: ids[i] != ids[j]
    requires t.launchers == RowsDisabled(s.launchers, Prefix(ids, n)) && t.principals == s.principals
    ensures forall l | l in ids[n..] :: Closed(t, l) <==> Closed(s, l)
    ensures ids[n..] == [ids[n]] + ids[n + 1..] && ids[n] !in ids[n + 1..]
  {
    hide Closed;
    forall l | l in ids[n..] ensures Closed(t, l) <==> Closed(s, l) { OthersDisabled(s, t, Prefix(ids, n), l); }
  }
}
