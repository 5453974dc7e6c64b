// The stored-root tables updated in place, one method a root mutation, each
// committing exactly the step StoredRoots.Next describes or nothing.
module StoredRootsStore {
  import opened Order
  import opened Paths
  import opened Policy
  import opened Composition
  import opened StoredRoots
  import EffectivePolicy

  /** The deleted rows a reconciliation reports (storedRootCascadeResult). */
  datatype Pruned = Pruned(principalRoots: seq<(int, Path)>, launcherRoots: seq<(string, Path)>)

  datatype Outcome = Done(changed: bool) | NotFound | RootNotFound | BadRoots(error: RootError) | OutsideGlobal | Failed

  ghost predicate Justified(err: RootError, requested: seq<Requested>, ceiling: seq<Entry>) {
    match err
    case NoRoots => requested == []
    case RootsOnInherit => false
    case InvalidAccess => exists r | r in requested :: r.access.Unknown?
    case InvalidRoot => exists r | r in requested :: r.path.None?
    case OutsidePrincipal(p) => (exists r | r in requested :: r.path == Some(p)) && !Covered(ceiling, p)
    case ConflictingAccess(p) =>
        exists r, q | r in requested && q in requested :: r.path == Some(p) == q.path && r.access != q.access
  }

  /** isWithinAnyAllowedRoot. */
  method WithinAny(path: Path, roots: seq<Entry>) returns (within: bool)
    ensures within <==> Covered(roots, path)
  {
    for i := 0 to |roots|
      invariant forall k | 0 <= k < i :: !Within(roots[k].path, path)
    {
      if Within(roots[i].path, path) { return true; }
    }
    return false;
  }

  /** The state of the validation loop after i admissible roots. */
  ghost predicate Scanned(requested: seq<Requested>, i: nat, ceiling: seq<Entry>, seen: map<Path, Access>,
      canonical: seq<Entry>)
    requires i <= |requested|
  {
    && canonical == FirstOccurrences(requested[..i])
    && (forall k | 0 <= k < i :: AdmissibleRoot(requested[k], ceiling))
    && (forall p | p in seen :: exists k | 0 <= k < i :: requested[k].path.value == p)
    && (forall k | 0 <= k < i ::
       requested[k].path.value in seen && seen[requested[k].path.value] == requested[k].access)
  }

  lemma ScanStep(requested: seq<Requested>, i: nat, ceiling: seq<Entry>, seen: map<Path, Access>, canonical: seq<Entry>)
    requires i < |requested| && Scanned(requested, i, ceiling, seen, canonical) && AdmissibleRoot(requested[i], ceiling)
    ensures var r := requested[i];
            var path: Path := r.path.value;
            if path in seen
            then if seen[path] == r.access then Scanned(requested, i + 1, ceiling, seen, canonical)
                 else !Admissible(requested, ceiling) && Justified(ConflictingAccess(path), requested, ceiling)
            else Scanned(requested, i + 1, ceiling, seen[path := r.access], canonical + [Entry(path, r.access)])
  {
    hide Covered;
    var r := requested[i];
    var path: Path := r.path.value;
    assert requested[..i + 1][..i] == requested[..i];
    OccurrencePaths(requested[..i], path);
    if path in seen {
      var k :| 0 <= k < i && requested[k].path.value == path;
      assert requested[..i][k] == requested[k];
      if seen[path] != r.access { ConflictFound(requested, ceiling, k, i); }
    }
  }

  lemma {:induction false} OccurrencePaths(requested: seq<Requested>, p: Path)
    ensures HasPath(FirstOccurrences(requested), p) <==>
            exists k | 0 <= k < |requested| :: requested[k].path.Some? && requested[k].path.value == p
  {
    if requested != [] {
      var n := |requested| - 1;
      var before, r := FirstOccurrences(requested[..n]), requested[n];
      OccurrencePaths(requested[..n], p);
      assert forall k | 0 <= k < n :: requested[..n][k] == requested[k];
      if r.path.Some? && !HasPath(before, r.path.value) {
        HasPathConcat(before, [Entry(r.path.value, r.access)], p);
        assert Entry(r.path.value, r.access) in [Entry(r.path.value, r.access)];
      }
    }
  }

  lemma ScanRefuses(requested: seq<Requested>, i: nat, ceiling: seq<Entry>)
    requires i < |requested| && !AdmissibleRoot(requested[i], ceiling)
    ensures !Admissible(requested, ceiling)
    ensures var r := requested[i];
            if r.access.Unknown? then Justified(InvalidAccess, requested, ceiling)
            else if r.path.None? then Justified(InvalidRoot, requested, ceiling)
            else Justified(OutsidePrincipal(r.path.value), requested, ceiling)
  {
    hide Covered;
    assert requested[i] in requested;
  }

  lemma ScanEnds(requested: seq<Requested>, ceiling: seq<Entry>, seen: map<Path, Access>, canonical: seq<Entry>)
    requires requested != [] && Scanned(requested, |requested|, ceiling, seen, canonical)
    ensures Admissible(requested, ceiling) && CanonicalRows(requested) == SortBy(PathKey, canonical)
  {
    hide Covered, SortBy;
    assert requested[..|requested|] == requested;
    forall i, j | 0 <= i < j < |requested| && requested[i].path == requested[j].path
      ensures requested[i].access == requested[j].access
    {
      assert seen[requested[i].path.value] == requested[i].access;
    }
  }

  /** validateLauncherAllowedRootEntries. */
  method ValidateLauncherRoots(requested: seq<Requested>, ceiling: seq<Entry>)
      returns (err: Option<RootError>, rows: seq<Entry>)
    ensures err.None? <==> Admissible(requested, ceiling)
    ensures err.None? ==> rows == CanonicalRows(requested)
    ensures err.Some? ==> Justified(err.value, requested, ceiling)
  {
    hide Covered, Within, Scanned, Admissible, Justified, CanonicalRows;
    if |requested| == 0 { NothingRequested(ceiling); return Some(NoRoots), []; }
    var seen: map<Path, Access> := map[];
    var canonical: seq<Entry> := [];
    ScanStarts(requested, ceiling);
    for i := 0 to |requested|
      invariant Scanned(requested, i, ceiling, seen, canonical)
    {
      var r := requested[i];
      if !AdmissibleRoot(r, ceiling) {
        ScanRefuses(requested, i, ceiling);
      } else {
        ScanStep(requested, i, ceiling, seen, canonical);
      }
      if r.access.Unknown? { return Some(InvalidAccess), []; }
      if r.path.None? { return Some(InvalidRoot), []; }
      var path: CanonicalPath := r.path.value;
      var within := WithinAny(path, ceiling);
      if !within { return Some(OutsidePrincipal(path)), []; }
      if path in seen {
        if seen[path] != r.access { return Some(ConflictingAccess(path)), []; }
        continue;
      }
      seen := seen[path := r.access];
      canonical := canonical + [Entry(path, r.access)];
    }
    ScanEnds(requested, ceiling, seen, canonical);
    rows := SortBy(PathKey, canonical);
    err := None;
  }

  lemma NothingRequested(ceiling: seq<Entry>)
    ensures !Admissible([], ceiling) && Justified(NoRoots, [], ceiling)
  {
  }

  lemma ScanStarts(requested: seq<Requested>, ceiling: seq<Entry>)
    ensures Scanned(requested, 0, ceiling, map[], [])
  {
  }

  lemma ConflictFound(requested: seq<Requested>, ceiling: seq<Entry>, k: nat, i: nat)
    requires k < i < |requested| && requested[k].path == requested[i].path && requested[i].path.Some?
    requires requested[k].access != requested[i].access
    ensures !Admissible(requested, ceiling) && Justified(ConflictingAccess(requested[i].path.value), requested, ceiling)
  {
    assert requested[k] in requested && requested[i] in requested;
  }

  // --------------------------------------------------- deletion row by row

  lemma KeepNothingYet(roots: seq<Entry>, ceiling: seq<Entry>, i: nat)
    requires i < |roots| && Rows(roots)
    ensures Keep(roots[..i + 1], ceiling) == if Covered(ceiling, roots[i].path) then Keep(roots[..i], ceiling) +
            [roots[i]] else Keep(roots[..i], ceiling)
    ensures Without(Keep(roots[..i], ceiling) + roots[i..], roots[i].path) == Keep(roots[..i], ceiling) + roots[i + 1..]
  {
    hide Covered, LexLess;
    assert roots[..i + 1][..i] == roots[..i];
    var kept, rest := Keep(roots[..i], ceiling), roots[i + 1..];
    KeepElements(roots[..i], ceiling);
    assert roots[i..] == [roots[i]] + rest;
    assert forall e | e in kept :: e in roots[..i];
    assert forall e | e in roots[..i] :: exists j :: 0 <= j < i && roots[j] == e;
    WithoutSkips(kept, roots[i], rest);
  }

  lemma {:induction false} WithoutSkips(a: seq<Entry>, e: Entry, b: seq<Entry>)
    requires (forall d | d in a :: d.path != e.path) && (forall d | d in b :: d.path != e.path)
    ensures Without(a + ([e] + b), e.path) == a + b
  {
    var all := a + ([e] + b);
    if b != [] {
      var n := |b| - 1;
      assert all[..|all| - 1] == a + ([e] + b[..n]);
      assert all[|all| - 1] == b[n];
      WithoutSkips(a, e, b[..n]);
      assert a + b == (a + b[..n]) + [b[n]];
    } else {
      assert all[..|all| - 1] == a && a + b == a;
      WithoutNothing(a, e.path);
    }
  }

  lemma {:induction false} WithoutNothing(a: seq<Entry>, p: Path)
    requires forall d | d in a :: d.path != p
    ensures Without(a, p) == a
  {
    if a != [] {
      WithoutNothing(a[..|a| - 1], p);
      assert a == a[..|a| - 1] + [a[|a| - 1]];
    }
  }

  /** The deleted rows of one owner in the order they are reported. */
  ghost function DroppedRows<K>(owner: K, roots: seq<Entry>, ceiling: seq<Entry>): seq<(K, Path)> {
    if roots == [] then []
    else
      var n := |roots| - 1;
      if Covered(ceiling, roots[n].path) then DroppedRows(owner, roots[..n], ceiling)
      else DroppedRows(owner, roots[..n], ceiling) + [(owner, roots[n].path)]
  }

  lemma {:induction false} DroppedRowsElements<K>(owner: K, roots: seq<Entry>, ceiling: seq<Entry>)
    ensures forall r :: r in DroppedRows(owner, roots, ceiling) <==>
              (r.0 == owner && HasPath(roots, r.1) && !Covered(ceiling, r.1))
  {
    hide Covered;
    if roots != [] {
      var n := |roots| - 1;
      DroppedRowsElements(owner, roots[..n], ceiling);
      assert roots == roots[..n] + [roots[n]];
      forall p ensures HasPath(roots, p) <==> HasPath(roots[..n], p) || p == roots[n].path {
        HasPathConcat(roots[..n], [roots[n]], p);
        assert roots[n] in [roots[n]];
      }
    }
  }

  /** Looking at row i either keeps it or deletes it from the table and reports it. */
  lemma PruneStep<K>(owner: K, roots: seq<Entry>, ceiling: seq<Entry>, i: nat, log: seq<(K, Path)>)
    requires i < |roots| && Rows(roots)
    ensures var now, next := Keep(roots[..i], ceiling) + roots[i..], Keep(roots[..i + 1], ceiling) + roots[i + 1..];
            var reported := log + DroppedRows(owner, roots[..i], ceiling);
            if Covered(ceiling, roots[i].path)
            then now == next && reported == log + DroppedRows(owner, roots[..i + 1], ceiling)
            else Without(now, roots[i].path) == next &&
                 reported + [(owner, roots[i].path)] == log + DroppedRows(owner, roots[..i + 1], ceiling)
  {
    hide Covered, Rows, LexLess;
    KeepNothingYet(roots, ceiling, i);
    assert roots[..i + 1][..i] == roots[..i];
    if Covered(ceiling, roots[i].path) {
      assert Keep(roots[..i], ceiling) + roots[i..] == (Keep(roots[..i], ceiling) + [roots[i]]) + roots[i + 1..];
    }
  }

  lemma PruneEnds<K>(owner: K, roots: seq<Entry>, ceiling: seq<Entry>)
    ensures Keep(roots[..|roots|], ceiling) + roots[|roots|..] == Keep(roots, ceiling)
    ensures DroppedRows(owner, roots[..|roots|], ceiling) == DroppedRows(owner, roots, ceiling)
    ensures Keep(roots[..0], ceiling) + roots[0..] == roots
    ensures DroppedRows(owner, roots[..0], ceiling) == []
  {
    assert roots[..|roots|] == roots;
  }

  /** The distinct keys of a query result, in key order. */
  method OrderedKeys<T(==)>(key: T -> seq<int>, ids: set<T>) returns (list: seq<T>)
    ensures (forall x :: x in list <==> x in ids) && forall i, j | 0 <= i < j < |list| :: list[i] != list[j]
    ensures Ascending(key, list)
  {
    list := [];
    var left := ids;
    while left != {}
      invariant left <= ids
      invariant forall x :: x in list <==> x in ids && x !in left
      invariant forall i, j | 0 <= i < j < |list| :: list[i] != list[j]
      decreases left
    {
      var x :| x in left;
      list, left := list + [x], left - {x};
    }
    SortDistinct(key, list);
    list := SortBy(key, list);
  }

  function IntKey(x: int): seq<int> { [x] }

  lemma SortDistinct<T>(key: T -> seq<int>, xs: seq<T>)
    requires forall i, j | 0 <= i < j < |xs| :: xs[i] != xs[j]
    ensures var s := SortBy(key, xs);
            (forall x :: x in s <==> x in xs) && (forall i, j | 0 <= i < j < |s| :: s[i] != s[j]) && Ascending(key, s)
  {
    SortByCorrect(key, xs);
    var s := SortBy(key, xs);
    forall i, j | 0 <= i < j < |s| ensures s[i] != s[j] {
      if s[i] == s[j] {
        TwiceCounts(s, i, j);
        DistinctOnce(xs, s[i]);
      }
    }
  }

  class Store {
    var global: seq<Entry>
    var principals: map<int, seq<Entry>>
    var launchers: map<string, Launcher>

    ghost function State(): State
      reads this
    {
      StoredRoots.State.State(global, principals, launchers)
    }

    constructor ()
      ensures State() == StoredRoots.State.State([], map[], map[]) && Coherent(State())
    {
      global, principals, launchers := [], map[], map[];
    }

    // ------------------------------------------------------- the cascade

    /** The Principal rows of prunePrincipalStoredRootsToCeiling. */
    method PrunePrincipalRows(entries: seq<Entry>, p: int, before: seq<(int, Path)>) returns (log: seq<(int, Path)>)
      requires p in principals && Rows(principals[p])
      modifies this`principals
      ensures principals == old(principals)[p := Keep(old(principals)[p], entries)]
      ensures log == before + DroppedRows(p, old(principals)[p], entries)
    {
      hide Covered, Rows, Keep, DroppedRows;
      log := before;
      var stored := principals[p];
      PruneEnds(p, stored, entries);
      assert principals[p := stored] == principals && before + [] == before;
      for i := 0 to |stored|
        invariant principals == old(principals)[p := Keep(stored[..i], entries) + stored[i..]]
        invariant log == before + DroppedRows(p, stored[..i], entries)
      {
        var root := stored[i];
        PruneStep(p, stored, entries, i, before);
        var within := WithinAny(root.path, entries);
        if !within {
          principals := principals[p := Without(principals[p], root.path)];
          log := log + [(p, root.path)];
        }
      }
    }

    /** One restricted Launcher of prunePrincipalStoredRootsToCeiling. */
    method PruneLauncherRows(ceiling: seq<Entry>, id: string, before: seq<(string, Path)>)
        returns (log: seq<(string, Path)>)
      requires id in launchers && Rows(launchers[id].roots)
      modifies this`launchers
      ensures launchers == old(launchers)[id := old(launchers)[id].(roots := Keep(old(launchers)[id].roots, ceiling))]
      ensures log == before + DroppedRows(id, old(launchers)[id].roots, ceiling)
    {
      hide Covered, Rows, Keep, DroppedRows;
      log := before;
      var row := launchers[id];
      var stored := row.roots;
      PruneEnds(id, stored, ceiling);
      assert launchers[id := row.(roots := stored)] == launchers && before + [] == before;
      for i := 0 to |stored|
        invariant launchers == old(launchers)[id := row.(roots := Keep(stored[..i], ceiling) + stored[i..])]
        invariant log == before + DroppedRows(id, stored[..i], ceiling)
      {
        var root := stored[i];
        PruneStep(id, stored, ceiling, i, before);
        var within := WithinAny(root.path, ceiling);
        if within { continue; }
        launchers := launchers[id := row.(roots := Without(launchers[id].roots, root.path))];
        log := log + [(id, root.path)];
      }
    }

    /** The Launcher level of prunePrincipalStoredRootsToCeiling. */
    method PruneLaunchersOf(p: int, ceiling: seq<Entry>, before: seq<(string, Path)>) returns (log: seq<(string, Path)>)
      requires forall l | l in launchers :: Rows(launchers[l].roots)
      modifies this`launchers
      ensures launchers == PrunedLaunchers(old(launchers), p, ceiling)
      ensures forall r :: r in log <==> r in before || LauncherRowDropped(old(launchers), p, ceiling, r)
    {
      hide Covered, Rows, HasPath, Keep, DroppedRows;
      log := before;
      ghost var rows := launchers;
      var ids := OrderedKeys(Codes, set l | l in launchers && launchers[l].owner == p &&
          launchers[l].scope == Restricted);
      assert forall l :: l in ids <==> l in rows && rows[l].owner == p && rows[l].scope == Restricted;
      for i := 0 to |ids|
        invariant launchers.Keys == rows.Keys
        invariant forall l | l in rows ::
                    launchers[l] == if l in ids[..i] then rows[l].(roots := Keep(rows[l].roots, ceiling)) else rows[l]
        invariant forall r :: r in log <==>
                    (r in before || (r.0 in ids[..i] && HasPath(rows[r.0].roots, r.1) && !Covered(ceiling, r.1)))
      {
        assert ids[i] in ids && ids[i] !in ids[..i] && ids[..i + 1] == ids[..i] + [ids[i]];
        DroppedRowsElements(ids[i], rows[ids[i]].roots, ceiling);
        log := PruneLauncherRows(ceiling, ids[i], log);
      }
      assert ids[..|ids|] == ids;
    }

    /** prunePrincipalStoredRootsToCeiling. */
    method PrunePrincipal(entries: seq<Entry>, p: int, globalScope: bool, before: Pruned) returns (result: Pruned)
      requires Schema(State()) && p in principals
      modifies this`principals, this`launchers
      ensures p in principals
      ensures principals ==
              (if globalScope then old(principals)[p := Keep(old(principals)[p], entries)] else old(principals))
      ensures launchers == PrunedLaunchers(old(launchers), p, Compose(entries, principals[p]))
      ensures forall r :: r in result.principalRoots <==>
                (r in before.principalRoots ||
                 (globalScope && r.0 == p && HasPath(old(principals)[p], r.1) && !Covered(entries, r.1)))
      ensures forall r :: r in result.launcherRoots <==>
                (r in before.launcherRoots || LauncherRowDropped(old(launchers), p, Compose(entries, principals[p]), r))
    {
      hide Covered, Rows, HasPath, Compose, Keep, PrunedLaunchers, LauncherRowDropped, DroppedRows;
      var principalLog := before.principalRoots;
      if globalScope {
        DroppedRowsElements(p, principals[p], entries);
        principalLog := PrunePrincipalRows(entries, p, principalLog);
      }
      var ceiling := ComposeScopes(entries, principals[p]);
      var launcherLog := PruneLaunchersOf(p, ceiling, before.launcherRoots);
      result := Pruned(principalLog, launcherLog);
    }

    /** pruneStoredAllowedRootsToCeilings, inside the caller's transaction. */
    method PruneStored(entries: seq<Entry>, principal: int) returns (result: Pruned)
      requires Schema(State()) && (principal == 0 || principal in principals)
      modifies this`principals, this`launchers
      ensures State() == Cascade(old(State()).(global := entries), principal == 0, principal).(global := global)
      ensures Reports(old(State()), entries, principal, result)
    {
      hide Covered, Rows, HasPath, Compose, Keep, Schema, Cascade, PrunedLaunchers, LauncherRowDropped, PartlyPruned,
          ReportsSoFar;
      ghost var was := State();
      var ids := [principal];
      if principal == 0 {
        SchemaFacts(was);
        ids := OrderedKeys(IntKey, principals.Keys);
      }
      result := Pruned([], []);
      PruneStarts(was, entries, principal, ids);
      for i := 0 to |ids|
        invariant PartlyPruned(was, entries, principal == 0, ids[..i], principals, launchers)
        invariant ReportsSoFar(was, entries, principal == 0, ids[..i], result)
      {
        assert ids[i] in ids && ids[i] !in ids[..i] && ids[..i + 1] == ids[..i] + [ids[i]];
        PartSchema(was, entries, principal == 0, ids[..i], State());
        ghost var now, reported := State(), result;
        result := PrunePrincipal(entries, ids[i], principal == 0, result);
        PartStep(was, entries, principal == 0, ids[..i], ids[i], now, State(), reported, result);
      }
      assert ids[..|ids|] == ids;
      PruneFinished(was, entries, principal, ids, State(), result);
    }

    // -------------------------------------------------- global transitions

    /** The reload, and the startup reconciliation: the rows are reconciled in one
        transaction, and only its commit publishes the new ceiling. */
    method TransitionGlobal(resolved: Option<seq<Entry>>, commits: bool) returns (ok: bool, result: Pruned)
      requires Schema(State())
      modifies this
      ensures ok <==> resolved.Some? && commits
      ensures State() == if ok then Next(old(State()), SetGlobal(resolved.value)) else old(State())
      ensures ok ==> Reports(old(State()), resolved.value, 0, result)
      ensures Schema(State()) && (InheritsNothing(old(State())) ==> ok ==> Coherent(State()))
    {
      hide Covered, Rows, Compose, Schema, Cascade, Reports, InheritsNothing, Coherent;
      ghost var was := State();
      if InheritsNothing(was) && resolved.Some? { TransitionEstablishes(was, resolved.value); }
      if resolved.None? { return false, Pruned([], []); }
      var savedPrincipals, savedLaunchers := principals, launchers;
      result := PruneStored(resolved.value, 0);
      if !commits {
        principals, launchers := savedPrincipals, savedLaunchers;
        return false, Pruned([], []);
      }
      global := resolved.value;
      GlobalSet(was, resolved.value);
      return true, result;
    }

    // ------------------------------------------------- Principal mutations

    /** addPrincipalAllowedRoot: never an access mutation. */
    method AddPrincipalRoot(p: int, root: Option<CanonicalPath>, access: Access, commits: bool)
        returns (outcome: Outcome, entry: Entry)
      requires Coherent(State())
      modifies this`principals
      ensures outcome.Done? <==>
              root.Some? && commits && Enabled(old(State()), StoredRoots.AddPrincipalRoot(p, root.value, access))
      ensures State() == if outcome.Done? then Next(old(State()), StoredRoots.AddPrincipalRoot(p, root.value, access))
              else old(State())
      ensures Coherent(State())
      ensures outcome.Done? ==> p in principals && entry in principals[p] && entry.path == root.value
      ensures outcome == Done(true) ==> entry.access == access
      ensures outcome == Done(false) ==> entry in old(principals)[p]
      ensures outcome.NotFound? ==> p !in old(principals)
      ensures outcome.OutsideGlobal? ==> root.Some? && !Covered(global, root.value)
      ensures outcome.BadRoots? ==> if access.Unknown? then outcome.error == InvalidAccess
              else root.None? && outcome.error == InvalidRoot
      ensures outcome.Failed? ==> !commits
      ensures !outcome.RootNotFound?
    {
      hide Covered, Rows, Compose, Cascade, InheritsNothing, Contained, PrincipalsUnderGlobal, LexLess;
      entry := Entry("/", access);
      if access.Unknown? { return BadRoots(InvalidAccess), entry; }
      if root.None? { return BadRoots(InvalidRoot), entry; }
      StepKeepsCoherence(State(), StoredRoots.AddPrincipalRoot(p, root.value, access));
      entry := Entry(root.value, access);
      var within := WithinAny(root.value, global);
      if !within { return OutsideGlobal, entry; }
      if p !in principals { return NotFound, entry; }
      if !commits { return Failed, entry; }
      WithRows(principals[p], entry);
      if HasPath(principals[p], root.value) {
        var stored :| stored in principals[p] && stored.path == root.value;
        assert principals[p := principals[p]] == principals;
        return Done(false), stored;
      }
      principals := principals[p := With(principals[p], entry)];
      return Done(true), entry;
    }

    /** removePrincipalAllowedRootCascaded: the exact row, and the Launcher rows it no longer carries. */
    method RemovePrincipalRoot(p: int, identity: Option<Path>, commits: bool) returns (outcome: Outcome, result: Pruned)
      requires Coherent(State())
      modifies this`principals, this`launchers
      ensures outcome.Done? <==> identity.Some? && commits && p in old(principals)
      ensures State() == if outcome.Done? then Next(old(State()), StoredRoots.RemovePrincipalRoot(p, identity.value))
              else old(State())
      ensures Coherent(State())
      ensures outcome.Done? ==> outcome.changed == HasPath(old(principals)[p], identity.value)
      ensures outcome == Done(true) ==> Reports(Removed(old(State()), p, identity.value), global, p, result)
      ensures outcome == Done(false) ==> result == Pruned([], [])
      ensures outcome.NotFound? ==> p !in old(principals)
      ensures outcome.BadRoots? ==> identity.None?
      ensures outcome.Failed? ==> !commits
      ensures outcome.Done? || outcome.NotFound? || outcome.BadRoots? || outcome.Failed?
    {
      hide Covered, Rows, Compose, Cascade, HasPath, InheritsNothing, Contained, PrincipalsUnderGlobal, Reports;
      result := Pruned([], []);
      if identity.None? { return BadRoots(InvalidRoot), result; }
      StepKeepsCoherence(State(), StoredRoots.RemovePrincipalRoot(p, identity.value));
      if p !in principals { return NotFound, result; }
      if !HasPath(principals[p], identity.value) {
        return if commits then Done(false) else Failed, result;
      }
      var savedPrincipals, savedLaunchers := principals, launchers;
      ghost var removed := Removed(State(), p, identity.value);
      principals := principals[p := Without(principals[p], identity.value)];
      assert State() == removed && p != 0;
      result := PruneStored(global, p);
      if !commits {
        principals, launchers := savedPrincipals, savedLaunchers;
        return Failed, Pruned([], []);
      }
      assert removed.(global := global) == removed;
      CascadeKeepsGlobal(removed, false, p);
      return Done(true), result;
    }

    /** setPrincipalAllowedRootAccess: a missing row is refused, an unchanged one is left alone. */
    method SetPrincipalAccess(p: int, identity: Option<Path>, access: Access, commits: bool) returns (outcome: Outcome)
      requires Coherent(State())
      modifies this`principals
      ensures outcome.Done? ==>
              identity.Some? && Enabled(old(State()), StoredRoots.SetPrincipalAccess(p, identity.value, access))
      ensures identity.Some? && commits &&
              Enabled(old(State()), StoredRoots.SetPrincipalAccess(p, identity.value, access))
              ==> outcome.Done?
      ensures State() ==
              if outcome.Done? then Next(old(State()), StoredRoots.SetPrincipalAccess(p, identity.value, access))
              else old(State())
      ensures Coherent(State())
      ensures outcome.Done? ==> (outcome.changed <==> State() != old(State()))
      ensures outcome.NotFound? ==> p !in principals
      ensures outcome.RootNotFound? ==> p in principals && identity.Some? && !HasPath(principals[p], identity.value)
      ensures outcome.BadRoots? ==> if access.Unknown? then outcome.error == InvalidAccess
              else identity.None? && outcome.error == InvalidRoot
      ensures outcome.Failed? ==> !commits
      ensures !outcome.OutsideGlobal?
    {
      hide Covered, Rows, Compose, Cascade, InheritsNothing, Contained, PrincipalsUnderGlobal, WithAccess;
      if access.Unknown? { return BadRoots(InvalidAccess); }
      if identity.None? { return BadRoots(InvalidRoot); }
      StepKeepsCoherence(State(), StoredRoots.SetPrincipalAccess(p, identity.value, access));
      if p !in principals { return NotFound; }
      if !HasPath(principals[p], identity.value) { return RootNotFound; }
      var stored :| stored in principals[p] && stored.path == identity.value;
      AccessUpdate(principals[p], stored, access);
      if stored.access == access {
        assert principals[p := principals[p]] == principals;
        return Done(false);
      }
      if !commits { return Failed; }
      ghost var before := principals;
      principals := principals[p := WithAccess(principals[p], identity.value, access)];
      assert principals[p] != before[p];
      return Done(true);
    }

    /** createPrincipalWithOptionalCredential: the home root and the default inherit Launcher. */
    method CreatePrincipal(p: int, home: Option<CanonicalPath>, launcher: string, commits: bool)
        returns (outcome: Outcome)
      requires Coherent(State()) && p > 0 && p !in principals && launcher !in launchers
      modifies this
      ensures outcome.Done? <==> commits && Enabled(old(State()), StoredRoots.CreatePrincipal(p, home, launcher))
      ensures State() == if outcome.Done? then Next(old(State()), StoredRoots.CreatePrincipal(p, home, launcher))
              else old(State())
      ensures Coherent(State())
      ensures outcome.BadRoots? ==> home.None?
      ensures outcome.OutsideGlobal? ==> home.Some? && !Covered(global, home.value)
      ensures outcome.Failed? ==> !commits
      ensures outcome.Done? || outcome.BadRoots? || outcome.OutsideGlobal? || outcome.Failed?
    {
      hide Covered, Rows, Compose, Cascade, InheritsNothing, Contained, PrincipalsUnderGlobal;
      StepKeepsCoherence(State(), StoredRoots.CreatePrincipal(p, home, launcher));
      if home.None? { return BadRoots(InvalidRoot); }
      var within := WithinAny(home.value, global);
      if !within { return OutsideGlobal; }
      if !commits { return Failed; }
      principals := principals[p := [Entry(home.value, ReadWrite)]];
      launchers := launchers[launcher := Launcher(p, Inherit, [])];
      return Done(true);
    }

    // -------------------------------------------------- Launcher mutations

    /** Both scope mutations validate before they change a row. */
    method ValidatedScope(owner: int, scope: Scope, requested: seq<Requested>)
        returns (err: Option<RootError>, rows: seq<Entry>)
      requires owner in principals
      ensures err.None? <==> ScopeAdmissible(State(), owner, scope, requested)
      ensures err.None? ==> rows == Stored(scope, requested)
      ensures err.Some? && scope == Restricted ==> Justified(err.value, requested, Ceiling(State(), owner))
      ensures err.Some? && scope == Inherit ==> requested != [] && err == Some(RootsOnInherit)
    {
      hide Covered, Compose, Admissible, CanonicalRows, Justified;
      if scope == Restricted {
        var ceiling := ComposeScopes(global, principals[owner]);
        err, rows := ValidateLauncherRoots(requested, ceiling);
        return;
      }
      return if |requested| > 0 then Some(RootsOnInherit) else None, [];
    }

    /** createLauncher. */
    method CreateLauncher(id: string, p: int, scope: Scope, requested: seq<Requested>, commits: bool)
        returns (outcome: Outcome)
      requires Coherent(State()) && id !in launchers
      modifies this`launchers
      ensures outcome.Done? <==> commits && Enabled(old(State()), StoredRoots.CreateLauncher(id, p, scope, requested))
      ensures State() == if outcome.Done? then Next(old(State()), StoredRoots.CreateLauncher(id, p, scope, requested))
              else old(State())
      ensures Coherent(State())
      ensures outcome.NotFound? ==> p !in principals
      ensures outcome.BadRoots? && scope == Restricted ==>
              p in principals && Justified(outcome.error, requested, Ceiling(old(State()), p))
      ensures outcome.BadRoots? && scope == Inherit ==> outcome.error == RootsOnInherit && requested != []
      ensures outcome.Failed? ==> !commits
      ensures outcome.Done? || outcome.NotFound? || outcome.BadRoots? || outcome.Failed?
    {
      hide Covered, Rows, Compose, Cascade, InheritsNothing, Contained, PrincipalsUnderGlobal, ScopeAdmissible, Stored;
      StepKeepsCoherence(State(), StoredRoots.CreateLauncher(id, p, scope, requested));
      if p !in principals { return NotFound; }
      var err, rows := ValidatedScope(p, scope, requested);
      if err.Some? { return BadRoots(err.value); }
      if !commits { return Failed; }
      launchers := launchers[id := Launcher(p, scope, rows)];
      return Done(true);
    }

    /** replaceLauncherScope: the old rows go, the validated ones come, in one transaction. */
    method ReplaceScope(id: string, scope: Scope, requested: seq<Requested>, commits: bool) returns (outcome: Outcome)
      requires Coherent(State())
      modifies this`launchers
      ensures outcome.Done? <==> commits && Enabled(old(State()), StoredRoots.ReplaceScope(id, scope, requested))
      ensures State() == if outcome.Done? then Next(old(State()), StoredRoots.ReplaceScope(id, scope, requested))
              else old(State())
      ensures Coherent(State())
      ensures outcome.NotFound? ==> id !in old(launchers)
      ensures outcome.BadRoots? && scope == Restricted ==>
              id in old(launchers) &&
              Justified(outcome.error, requested, Ceiling(old(State()), old(launchers)[id].owner))
      ensures outcome.BadRoots? && scope == Inherit ==> outcome.error == RootsOnInherit && requested != []
      ensures outcome.Failed? ==> !commits
      ensures outcome.Done? || outcome.NotFound? || outcome.BadRoots? || outcome.Failed?
    {
      hide Covered, Rows, Compose, Cascade, InheritsNothing, Contained, PrincipalsUnderGlobal, ScopeAdmissible, Stored;
      StepKeepsCoherence(State(), StoredRoots.ReplaceScope(id, scope, requested));
      if id !in launchers { return NotFound; }
      var saved := launchers;
      var err, rows := ValidatedScope(launchers[id].owner, scope, requested);
      if err.Some? { return BadRoots(err.value); }
      launchers := launchers[id := launchers[id].(scope := scope)];
      launchers := launchers[id := launchers[id].(roots := [])];
      launchers := launchers[id := launchers[id].(roots := rows)];
      if !commits {
        launchers := saved;
        return Failed;
      }
      assert launchers == saved[id := Launcher(saved[id].owner, scope, rows)];
      return Done(true);
    }

    /** addLauncherAllowedRoot: a new root narrows an inherit Launcher, a stored one keeps its row. */
    method AddLauncherRoot(id: string, root: Option<CanonicalPath>, access: Access, commits: bool)
        returns (outcome: Outcome, entry: Entry)
      requires Coherent(State())
      modifies this`launchers
      ensures outcome.Done? <==>
              root.Some? && commits && Enabled(old(State()), StoredRoots.AddLauncherRoot(id, root.value, access))
      ensures State() == if outcome.Done? then Next(old(State()), StoredRoots.AddLauncherRoot(id, root.value, access))
              else old(State())
      ensures Coherent(State())
      ensures outcome.Done? ==> id in launchers && entry in launchers[id].roots && launchers[id].scope == Restricted
      ensures outcome.NotFound? ==> id !in old(launchers)
      ensures outcome.BadRoots? ==>
              if access.Unknown? then outcome.error == InvalidAccess
              else if root.None? then outcome.error == InvalidRoot
              else
                outcome.error == OutsidePrincipal(root.value) && id in old(launchers) &&
                !Covered(Ceiling(old(State()), old(launchers)[id].owner), root.value)
      ensures outcome.Failed? ==> !commits
      ensures outcome.Done? || outcome.NotFound? || outcome.BadRoots? || outcome.Failed?
    {
      hide Covered, Rows, Compose, Cascade, Contained, PrincipalsUnderGlobal, LexLess;
      entry := Entry("/", access);
      if access.Unknown? { return BadRoots(InvalidAccess), entry; }
      if root.None? { return BadRoots(InvalidRoot), entry; }
      StepKeepsCoherence(State(), StoredRoots.AddLauncherRoot(id, root.value, access));
      entry := Entry(root.value, access);
      if id !in launchers { return NotFound, entry; }
      var row := launchers[id];
      var ceiling := ComposeScopes(global, principals[row.owner]);
      var within := WithinAny(root.value, ceiling);
      if !within { return BadRoots(OutsidePrincipal(root.value)), entry; }
      if !commits { return Failed, entry; }
      WithRows(row.roots, entry);
      if HasPath(row.roots, root.value) {
        var stored :| stored in row.roots && stored.path == root.value;
        assert launchers[id := row] == launchers;
        return Done(false), stored;
      }
      launchers := launchers[id := row.(roots := With(row.roots, entry))];
      launchers := launchers[id := launchers[id].(scope := Restricted)];
      return Done(true), entry;
    }

    /** removeLauncherAllowedRoot: the scope mode never changes. */
    method RemoveLauncherRoot(id: string, identity: Option<Path>, commits: bool) returns (outcome: Outcome)
      requires Coherent(State())
      modifies this`launchers
      ensures outcome.Done? <==> identity.Some? && commits && id in old(launchers)
      ensures State() == if outcome.Done? then Next(old(State()), StoredRoots.RemoveLauncherRoot(id, identity.value))
              else old(State())
      ensures Coherent(State())
      ensures outcome.Done? ==> outcome.changed == HasPath(old(launchers)[id].roots, identity.value)
      ensures outcome.NotFound? ==> id !in old(launchers)
      ensures outcome.BadRoots? ==> identity.None?
      ensures outcome.Failed? ==> !commits
      ensures outcome.Done? || outcome.NotFound? || outcome.BadRoots? || outcome.Failed?
    {
      hide Covered, Rows, Compose, Cascade, InheritsNothing, Contained, PrincipalsUnderGlobal, HasPath;
      if identity.None? { return BadRoots(InvalidRoot); }
      StepKeepsCoherence(State(), StoredRoots.RemoveLauncherRoot(id, identity.value));
      if id !in launchers { return NotFound; }
      if !commits { return Failed; }
      var changed := HasPath(launchers[id].roots, identity.value);
      launchers := launchers[id := launchers[id].(roots := Without(launchers[id].roots, identity.value))];
      return Done(changed);
    }

    /** setLauncherAllowedRootAccess. */
    method SetLauncherAccess(id: string, identity: Option<Path>, access: Access, commits: bool)
        returns (outcome: Outcome)
      requires Coherent(State())
      modifies this`launchers
      ensures outcome.Done? ==>
              identity.Some? && Enabled(old(State()), StoredRoots.SetLauncherAccess(id, identity.value, access))
      ensures identity.Some? && commits &&
              Enabled(old(State()), StoredRoots.SetLauncherAccess(id, identity.value, access))
              ==> outcome.Done?
      ensures State() ==
              if outcome.Done? then Next(old(State()), StoredRoots.SetLauncherAccess(id, identity.value, access))
              else old(State())
      ensures Coherent(State())
      ensures outcome.Done? ==> (outcome.changed <==> State() != old(State()))
      ensures outcome.NotFound? ==> id !in old(launchers)
      ensures outcome.RootNotFound? ==>
              id in old(launchers) && identity.Some? && !HasPath(old(launchers)[id].roots, identity.value)
      ensures outcome.BadRoots? ==> if access.Unknown? then outcome.error == InvalidAccess
              else identity.None? && outcome.error == InvalidRoot
      ensures outcome.Failed? ==> !commits
      ensures !outcome.OutsideGlobal?
    {
      hide Covered, Rows, Compose, Cascade, InheritsNothing, Contained, PrincipalsUnderGlobal, WithAccess;
      if access.Unknown? { return BadRoots(InvalidAccess); }
      if identity.None? { return BadRoots(InvalidRoot); }
      StepKeepsCoherence(State(), StoredRoots.SetLauncherAccess(id, identity.value, access));
      if id !in launchers { return NotFound; }
      var row := launchers[id];
      if !HasPath(row.roots, identity.value) { return RootNotFound; }
      var stored :| stored in row.roots && stored.path == identity.value;
      AccessUpdate(row.roots, stored, access);
      if stored.access == access {
        assert launchers[id := row] == launchers;
        return Done(false);
      }
      if !commits { return Failed; }
      ghost var before := launchers;
      launchers := launchers[id := row.(roots := WithAccess(row.roots, identity.value, access))];
      assert launchers[id] != before[id];
      return Done(true);
    }

    /** The owner rows go, and with them every row below (the foreign-key cascades). */
    method DeleteLauncher(id: string, commits: bool) returns (outcome: Outcome)
      requires Coherent(State())
      modifies this`launchers
      ensures outcome == if id !in old(launchers) then NotFound else if !commits then Failed else Done(true)
      ensures State() == if outcome.Done? then Next(old(State()), StoredRoots.DeleteLauncher(id)) else old(State())
      ensures Coherent(State())
    {
      hide Covered, Rows, Compose, Cascade, InheritsNothing, Contained, PrincipalsUnderGlobal;
      StepKeepsCoherence(State(), StoredRoots.DeleteLauncher(id));
      if id !in launchers { return NotFound; }
      if !commits { return Failed; }
      launchers := launchers - {id};
      return Done(true);
    }

    method DeletePrincipal(p: int, commits: bool) returns (outcome: Outcome)
      requires Coherent(State())
      modifies this`principals, this`launchers
      ensures outcome == if p !in old(principals) then NotFound else if !commits then Failed else Done(true)
      ensures State() == if outcome.Done? then Next(old(State()), StoredRoots.DeletePrincipal(p)) else old(State())
      ensures Coherent(State())
    {
      hide Covered, Rows, Compose, Cascade, InheritsNothing, Contained, PrincipalsUnderGlobal;
      StepKeepsCoherence(State(), StoredRoots.DeletePrincipal(p));
      if p !in principals { return NotFound; }
      if !commits { return Failed; }
      principals := principals - {p};
      launchers := map l | l in launchers && launchers[l].owner != p :: launchers[l];
      return Done(true);
    }

    /** effectiveLauncherAllowedRoots: in a coherent store it never refuses. */
    method EffectiveLauncherRoots(id: string) returns (effective: Option<seq<Entry>>)
      requires Schema(State()) && id in launchers
      ensures effective == EffectiveRoots(State(), id)
      ensures Coherent(State()) ==> effective.Some?
      ensures effective.Some? ==> forall p ::
                Covered(effective.value, p) <==>
                Under(global, principals[launchers[id].owner], p) &&
                (launchers[id].scope == Restricted ==> Valid(launchers[id].roots) && Covered(launchers[id].roots, p))
    {
      hide Covered, Rows, Compose, InheritsNothing, PrincipalsUnderGlobal, Under, Valid;
      EffectivePolicy.EffectiveCovers(State(), id);
      var row := launchers[id];
      var ceiling := ComposeScopes(global, principals[row.owner]);
      if row.scope == Inherit { return Some(ceiling); }
      for i := 0 to |row.roots|
        invariant forall k | 0 <= k < i :: Covered(ceiling, row.roots[k].path)
      {
        var within := WithinAny(row.roots[i].path, ceiling);
        if !within {
          assert row.roots[i] in row.roots;
          return None;
        }
      }
      var composed := ComposeScopes(ceiling, row.roots);
      return Some(composed);
    }
  }

  lemma GlobalSet(s: State, entries: seq<Entry>)
    requires Schema(s)
    ensures Next(s, SetGlobal(entries)) == Cascade(s.(global := entries), true, 0)
    ensures Schema(Next(s, SetGlobal(entries)))
    ensures Next(s, SetGlobal(entries)).global == entries
  {
    hide Covered, Rows, Compose, Keep;
    CascadeSchema(s.(global := entries), true, 0);
  }

  lemma CascadeKeepsGlobal(s: State, all: bool, p: int)
    requires Schema(s)
    ensures Cascade(s, all, p).global == s.global && Cascade(s, all, p).(global := s.global) == Cascade(s, all, p)
  {
  }

  lemma AccessUpdate(roots: seq<Entry>, e: Entry, access: Access)
    requires Rows(roots) && e in roots
    ensures WithAccess(roots, e.path, access) == roots <==> e.access == access
  {
    hide LexLess;
    var i :| 0 <= i < |roots| && roots[i] == e;
    var w := WithAccess(roots, e.path, access);
    assert w[i] == Entry(e.path, access);
    if e.access == access { assert forall k | 0 <= k < |roots| :: w[k] == roots[k]; }
  }

  /** The Principal rows after the prune of the selected population. */
  ghost function KeptRows(s: State, entries: seq<Entry>, all: bool, p: int): seq<Entry>
    requires p in s.principals
  {
    if all then Keep(s.principals[p], entries) else s.principals[p]
  }

  /** The result lists exactly the rows the cascade deletes. */
  ghost predicate Reports(s: State, entries: seq<Entry>, principal: int, result: Pruned)
    requires Schema(s)
  {
    && (forall r :: r in result.principalRoots <==>
          (principal == 0 && r.0 in s.principals && HasPath(s.principals[r.0], r.1) && !Covered(entries, r.1)))
    && (forall r :: r in result.launcherRoots <==>
          exists p | p in s.principals && (principal == 0 || p == principal) ::
            LauncherRowDropped(s.launchers, p, Compose(entries, KeptRows(s, entries, principal == 0, p)), r))
  }

  ghost predicate PartlyPruned(s: State, entries: seq<Entry>, all: bool, ids: seq<int>,
                               principals: map<int, seq<Entry>>, launchers: map<string, Launcher>)
    requires Schema(s)
  {
    && principals.Keys == s.principals.Keys && launchers.Keys == s.launchers.Keys
    && (forall p | p in principals ::
       principals[p] == if p in ids then KeptRows(s, entries, all, p) else s.principals[p])
    && (forall l | l in launchers ::
          launchers[l] == if s.launchers[l].scope == Restricted && s.launchers[l].owner in ids
                          then s.launchers[l].(roots := Keep(s.launchers[l].roots,
                              Compose(entries, KeptRows(s, entries, all, s.launchers[l].owner))))
                          else s.launchers[l])
  }

  ghost predicate ReportsSoFar(s: State, entries: seq<Entry>, all: bool, ids: seq<int>, result: Pruned) {
    && (forall r :: r in result.principalRoots <==>
          (all && r.0 in ids && r.0 in s.principals && HasPath(s.principals[r.0], r.1) && !Covered(entries, r.1)))
    && (forall r :: r in result.launcherRoots <==>
          exists p | p in ids && p in s.principals ::
            LauncherRowDropped(s.launchers, p, Compose(entries, KeptRows(s, entries, all, p)), r))
  }

  lemma SchemaFacts(s: State)
    requires Schema(s)
    ensures 0 !in s.principals
  {
  }

  lemma PruneStarts(s: State, entries: seq<Entry>, principal: int, ids: seq<int>)
    requires Schema(s)
    ensures PartlyPruned(s, entries, principal == 0, ids[..0], s.principals, s.launchers)
    ensures ReportsSoFar(s, entries, principal == 0, ids[..0], Pruned([], []))
  {
    hide Covered, Rows, HasPath, Compose, Keep, LauncherRowDropped;
  }

  lemma PartSchema(s: State, entries: seq<Entry>, all: bool, ids: seq<int>, t: State)
    requires Schema(s) && PartlyPruned(s, entries, all, ids, t.principals, t.launchers)
    ensures Schema(t) && t.principals.Keys == s.principals.Keys
  {
    hide Covered, Rows, Compose, Keep;
    forall p | p in s.principals ensures Rows(KeptRows(s, entries, all, p)) {
      KeepRows(s.principals[p], entries);
    }
    forall l | l in t.launchers ensures t.launchers[l].owner in t.principals && Rows(t.launchers[l].roots) {
      KeepRows(s.launchers[l].roots, Compose(entries, KeptRows(s, entries, all, s.launchers[l].owner)));
    }
  }

  lemma PartStep(s: State, entries: seq<Entry>, all: bool, ids: seq<int>, p: int, now: State, after: State,
      before: Pruned, result: Pruned)
    requires Schema(s) && p !in ids && p in now.principals
    requires PartlyPruned(s, entries, all, ids, now.principals, now.launchers) &&
             ReportsSoFar(s, entries, all, ids, before)
    requires after.principals == (if all then now.principals[p := Keep(now.principals[p], entries)] else now.principals)
    requires after.launchers == PrunedLaunchers(now.launchers, p, Compose(entries, after.principals[p]))
    requires forall r :: r in result.principalRoots <==>
               (r in before.principalRoots ||
                   (all && r.0 == p && HasPath(now.principals[p], r.1) && !Covered(entries, r.1)))
    requires forall r :: r in result.launcherRoots <==>
               (r in before.launcherRoots ||
                   LauncherRowDropped(now.launchers, p, Compose(entries, after.principals[p]), r))
    ensures PartlyPruned(s, entries, all, ids + [p], after.principals, after.launchers)
    ensures ReportsSoFar(s, entries, all, ids + [p], result)
  {
    hide Covered, Rows, HasPath, Compose, Keep;
    assert now.principals[p] == s.principals[p] && after.principals[p] == KeptRows(s, entries, all, p);
    var ceiling := Compose(entries, KeptRows(s, entries, all, p));
    forall r: (string, Path)
        ensures LauncherRowDropped(now.launchers, p, ceiling, r) <==> LauncherRowDropped(s.launchers, p, ceiling, r) {}
    PartStepReports(s, entries, all, ids, p, before, result);
  }

  lemma PartStepReports(s: State, entries: seq<Entry>, all: bool, ids: seq<int>, p: int, before: Pruned, result: Pruned)
    requires p in s.principals && ReportsSoFar(s, entries, all, ids, before)
    requires forall r :: r in result.principalRoots <==>
               (r in before.principalRoots ||
                   (all && r.0 == p && HasPath(s.principals[p], r.1) && !Covered(entries, r.1)))
    requires forall r :: r in result.launcherRoots <==>
               (r in before.launcherRoots ||
                   LauncherRowDropped(s.launchers, p, Compose(entries, KeptRows(s, entries, all, p)), r))
    ensures ReportsSoFar(s, entries, all, ids + [p], result)
  {
    hide Covered, Rows, HasPath, Compose, Keep, LauncherRowDropped, KeptRows;
  }

  lemma ReportsComplete(s: State, entries: seq<Entry>, principal: int, ids: seq<int>, result: Pruned)
    requires Schema(s) && (principal == 0 || principal in s.principals)
    requires forall p :: p in ids <==> if principal == 0 then p in s.principals else p == principal
    requires ReportsSoFar(s, entries, principal == 0, ids, result)
    ensures Reports(s, entries, principal, result)
  {
    hide Covered, HasPath, Compose, LauncherRowDropped, KeptRows, Schema;
    forall p ensures (p in ids && p in s.principals) <==> (p in s.principals && (principal == 0 || p == principal)) {}
    assert forall r :: r in result.principalRoots <==>
        (principal == 0 && r.0 in s.principals && HasPath(s.principals[r.0], r.1) && !Covered(entries, r.1));
  }

  lemma PruneFinished(s: State, entries: seq<Entry>, principal: int, ids: seq<int>, t: State, result: Pruned)
    requires Schema(s) && (principal == 0 || principal in s.principals)
    requires forall p :: p in ids <==> if principal == 0 then p in s.principals else p == principal
    requires PartlyPruned(s, entries, principal == 0, ids, t.principals, t.launchers)
    requires ReportsSoFar(s, entries, principal == 0, ids, result)
    ensures t == Cascade(s.(global := entries), principal == 0, principal).(global := t.global)
    ensures Reports(s, entries, principal, result)
  {
    hide Covered, Rows, HasPath, Compose, Keep, LauncherRowDropped, Reports, ReportsSoFar;
    ReportsComplete(s, entries, principal, ids, result);
    var c := Cascade(s.(global := entries), principal == 0, principal);
    forall p | p in s.principals ensures t.principals[p] == c.principals[p] {
      assert p in ids <==> principal == 0 || p == principal;
    }
    assert t.principals == c.principals;
    forall l | l in s.launchers ensures t.launchers[l] == c.launchers[l] {
      assert s.launchers[l].owner in s.principals;
      assert c.principals[s.launchers[l].owner] == KeptRows(s, entries, principal == 0, s.launchers[l].owner);
    }
    assert t.launchers == c.launchers;
  }

  /** The restricted Launchers of Principal p reduced to the rows its ceiling contains. */
  ghost function PrunedLaunchers(launchers: map<string, Launcher>, p: int, ceiling: seq<Entry>): map<string, Launcher> {
    map l | l in launchers ::
      if launchers[l].scope == Restricted && launchers[l].owner == p
      then launchers[l].(roots := Keep(launchers[l].roots, ceiling))
      else launchers[l]
  }

  ghost predicate LauncherRowDropped(launchers: map<string, Launcher>, p: int, ceiling: seq<Entry>, r: (string, Path)) {
    r.0 in launchers && launchers[r.0].owner == p && launchers[r.0].scope == Restricted &&
    HasPath(launchers[r.0].roots, r.1) && !Covered(ceiling, r.1)
  }
}
