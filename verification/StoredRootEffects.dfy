// What every mutation of the stored roots does to the rows, entry by entry, and
// what it leaves alone (allowed_root_cascade.go, launcher.go, principal.go).
module StoredRootEffects {
  import opened Order
  import opened Paths
  import opened Policy
  import opened Composition
  import opened StoredRoots

  /** Only the rows of Principal p may differ. */
  ghost predicate OnlyPrincipal(s: State, t: State, p: int) {
    && t.global == s.global && t.launchers == s.launchers && t.principals.Keys == s.principals.Keys
    && forall q | q in s.principals && q != p :: t.principals[q] == s.principals[q]
  }

  /** Only Launcher l may differ, and not in its owner. */
  ghost predicate OnlyLauncher(s: State, t: State, l: string) {
    && t.global == s.global && t.principals == s.principals && t.launchers.Keys == s.launchers.Keys
    && (forall k | k in s.launchers && k != l :: t.launchers[k] == s.launchers[k])
    && (l in s.launchers ==> t.launchers[l].owner == s.launchers[l].owner)
  }

  /** An added entry joins the rows unless its path has one. */
  lemma AddDoes(s: State, step: Step)
    requires Schema(s) && Enabled(s, step)
    ensures var t := Next(s, step);
            match step
            case AddPrincipalRoot(p, path, access) =>
              && OnlyPrincipal(s, t, p)
              && forall e :: e in t.principals[p] <==>
                             (e in s.principals[p] ||
                              (e == Entry(path, access) && forall d | d in s.principals[p] :: d.path != path))
            case AddLauncherRoot(l, path, access) =>
              && OnlyLauncher(s, t, l)
              && (forall e :: e in t.launchers[l].roots <==>
                              (e in s.launchers[l].roots ||
                               (e == Entry(path, access) && forall d | d in s.launchers[l].roots :: d.path != path)))
              && t.launchers[l].scope == (if exists d | d in s.launchers[l].roots :: d.path == path
                                          then s.launchers[l].scope else Restricted)
            case _ => true
  {
    hide Compose, Covered, LexLess, Cascade, Canonical;
    match step
    case AddPrincipalRoot(p, path, access) => WithRows(s.principals[p], Entry(path, access));
    case AddLauncherRoot(l, path, access) => WithRows(s.launchers[l].roots, Entry(path, access));
    case _ =>
  }

  /** A changed access is that entry's new one; every other entry stays. */
  lemma SetAccessDoes(s: State, step: Step)
    requires Schema(s) && Enabled(s, step)
    ensures var t := Next(s, step);
            match step
            case SetPrincipalAccess(p, path, access) =>
              && OnlyPrincipal(s, t, p)
              && forall e :: e in t.principals[p] <==>
                             e == Entry(path, access) || (e in s.principals[p] && e.path != path)
            case SetLauncherAccess(l, path, access) =>
              && OnlyLauncher(s, t, l) && t.launchers[l].scope == s.launchers[l].scope
              && forall e :: e in t.launchers[l].roots <==>
                             e == Entry(path, access) || (e in s.launchers[l].roots && e.path != path)
            case _ => true
  {
    hide Compose, Covered, LexLess, Cascade, Canonical, WithAccess;
    match step
    case SetPrincipalAccess(p, path, access) => WithAccessElements(s.principals[p], path, access);
    case SetLauncherAccess(l, path, access) => WithAccessElements(s.launchers[l].roots, path, access);
    case _ =>
  }

  lemma WithAccessElements(roots: seq<Entry>, path: Path, access: Access)
    requires HasPath(roots, path)
    ensures forall e :: e in WithAccess(roots, path, access) <==>
                        e == Entry(path, access) || (e in roots && e.path != path)
  {
    var w := WithAccess(roots, path, access);
    WithAccessAt(roots, path, access);
    var d :| d in roots && d.path == path;
    var k :| 0 <= k < |roots| && roots[k] == d;
    assert w[k] == Entry(path, access);
    forall e | e in roots && e.path != path ensures e in w {
      var i :| 0 <= i < |roots| && roots[i] == e;
      assert w[i] == e;
    }
  }

  /** Of these rows exactly those under both scopes are left. */
  ghost predicate LeftUnder(before: seq<Entry>, after: seq<Entry>, global: seq<Entry>, stored: seq<Entry>) {
    forall e: Entry :: e in after <==> e in before && Under(global, stored, e.path)
  }

  /** Launcher k of s came out as t: pruned to what its Principal's rows `stored` allow, or untouched. */
  ghost predicate PrunedOrSame(k: Launcher, t: Launcher, pruned: bool, global: seq<Entry>, stored: seq<Entry>) {
    if pruned then t.owner == k.owner && t.scope == k.scope && LeftUnder(k.roots, t.roots, global, stored) else t == k
  }

  lemma CascadePrunes(s: State, all: bool, p: int, l: string)
    requires Schema(s) && l in s.launchers
    ensures var t := Cascade(s, all, p);
            && t.principals.Keys == s.principals.Keys && t.launchers.Keys == s.launchers.Keys
            && PrunedOrSame(s.launchers[l], t.launchers[l],
                            s.launchers[l].scope == Restricted && (all || s.launchers[l].owner == p),
                            s.global, t.principals[s.launchers[l].owner])
  {
    hide Compose, Covered, Under, Rows;
    var t := Cascade(s, all, p);
    var stored := t.principals[s.launchers[l].owner];
    forall e: Entry ensures Covered(Compose(s.global, stored), e.path) <==> Under(s.global, stored, e.path) {
      CeilingCovers(s.global, stored, e.path);
    }
    KeepElements(s.launchers[l].roots, Compose(s.global, stored));
  }

  /** The rows t are those of s without Principal p's root at `path` and, if it had one, without
      the rows of its restricted Launchers that its ceiling then no longer covers. */
  ghost predicate WithoutRoot(s: State, p: int, path: Path, t: State)
    requires Schema(s) && p in s.principals
  {
    && t.global == s.global && t.principals.Keys == s.principals.Keys && t.launchers.Keys == s.launchers.Keys
    && (forall q | q in s.principals && q != p :: t.principals[q] == s.principals[q])
    && (forall e: Entry :: e in t.principals[p] <==> e in s.principals[p] && e.path != path)
    && (forall l | l in s.launchers ::
          PrunedOrSame(s.launchers[l], t.launchers[l],
                       s.launchers[l].scope == Restricted && s.launchers[l].owner == p &&
                       HasPath(s.principals[p], path),
                       s.global, t.principals[p]))
  }

  /** A removed path leaves the rows. */
  lemma RemoveDoes(s: State, step: Step)
    requires Schema(s) && Enabled(s, step)
    ensures var t := Next(s, step);
            match step
            case RemovePrincipalRoot(p, path) => WithoutRoot(s, p, path, t)
            case RemoveLauncherRoot(l, path) =>
              && OnlyLauncher(s, t, l) && t.launchers[l].scope == s.launchers[l].scope
              && forall e: Entry :: e in t.launchers[l].roots <==> e in s.launchers[l].roots && e.path != path
            case _ => true
  {
    hide Compose, Covered, LexLess, Cascade, Canonical, Without, Under, Rows;
    match step
    case RemovePrincipalRoot(p, path) =>
      WithoutRows(s.principals[p], path);
      if HasPath(s.principals[p], path) {
        var removed := Removed(s, p, path);
        CascadeFrame(removed, p);
        forall l | l in s.launchers
          ensures PrunedOrSame(s.launchers[l], Cascade(removed, false, p).launchers[l],
                               s.launchers[l].scope == Restricted && s.launchers[l].owner == p,
                               s.global, removed.principals[p])
        {
          CascadePrunes(removed, false, p, l);
        }
      }
    case RemoveLauncherRoot(l, path) => WithoutRows(s.launchers[l].roots, path);
    case _ =>
  }

  lemma CascadeFrame(s: State, p: int)
    requires Schema(s)
    ensures Cascade(s, false, p).principals == s.principals && Cascade(s, false, p).global == s.global
    ensures Cascade(s, false, p).launchers.Keys == s.launchers.Keys
  {
    assert (map q | q in s.principals :: s.principals[q]) == s.principals;
  }

  /** Created rows and replaced scopes are what was asked for. */
  lemma CreateDoes(s: State, step: Step)
    requires Schema(s) && Enabled(s, step)
    ensures var t := Next(s, step);
            match step
            case CreatePrincipal(p, home, l) =>
              && t.global == s.global && t.principals == s.principals[p := [Entry(home.value, ReadWrite)]]
              && t.launchers == s.launchers[l := Launcher(p, Inherit, [])]
            case CreateLauncher(l, p, scope, requested) =>
              && t.global == s.global && t.principals == s.principals
              && t.launchers == s.launchers[l := Launcher(p, scope, t.launchers[l].roots)]
              && forall e: Entry :: e in t.launchers[l].roots <==> Asked(scope, requested, e)
            case ReplaceScope(l, scope, requested) =>
              && OnlyLauncher(s, t, l) && t.launchers[l].scope == scope
              && forall e: Entry :: e in t.launchers[l].roots <==> Asked(scope, requested, e)
            case _ => true
  {
    hide Compose, Covered, LexLess, Cascade, Canonical, Rows, CanonicalRows, Admissible;
    match step
    case CreateLauncher(l, p, scope, requested) => StoredIsAsked(s, p, scope, requested);
    case ReplaceScope(l, scope, requested) => StoredIsAsked(s, s.launchers[l].owner, scope, requested);
    case _ =>
  }

  /** The request names this entry, for a restricted scope. */
  ghost predicate Asked(scope: Scope, requested: seq<Requested>, e: Entry) {
    scope == Restricted && exists r | r in requested :: r.path == Some(e.path) && r.access == e.access
  }

  lemma StoredIsAsked(s: State, p: int, scope: Scope, requested: seq<Requested>)
    requires p in s.principals && ScopeAdmissible(s, p, scope, requested)
    ensures forall e: Entry :: e in Stored(scope, requested) <==> Asked(scope, requested, e)
  {
    hide Covered, Compose, Admissible, CanonicalRows, Rows;
    if scope == Restricted { CanonicalRowsElements(requested, Ceiling(s, p)); }
  }

  /** Deleted rows are gone with everything they own, and nothing else. */
  lemma DeleteDoes(s: State, step: Step)
    requires Schema(s) && Enabled(s, step)
    ensures var t := Next(s, step);
            match step
            case DeletePrincipal(p) =>
              && t.global == s.global && t.principals == s.principals - {p} && p !in t.principals
              && (forall l :: l in t.launchers <==> l in s.launchers && s.launchers[l].owner != p)
              && (forall l | l in t.launchers :: t.launchers[l] == s.launchers[l])
            case DeleteLauncher(l) =>
              && t.global == s.global && t.principals == s.principals && l !in t.launchers
              && (forall k | k in s.launchers && k != l :: k in t.launchers && t.launchers[k] == s.launchers[k])
              && t.launchers.Keys <= s.launchers.Keys
            case _ => true
  {
    hide Compose, Covered, LexLess, Cascade, Canonical, Rows;
  }

  /** The rows t are those of s that the ceiling `entries` still covers: a Principal's
      rows directly, a restricted Launcher's together with its Principal's. */
  ghost predicate Reconciled(s: State, entries: seq<Entry>, t: State)
    requires Schema(s)
  {
    && t.principals.Keys == s.principals.Keys && t.launchers.Keys == s.launchers.Keys
    && (forall p | p in s.principals :: StillCovered(s.principals[p], t.principals[p], entries))
    && (forall l | l in s.launchers ::
          PrunedOrSame(s.launchers[l], t.launchers[l], s.launchers[l].scope == Restricted,
                       entries, t.principals[s.launchers[l].owner]))
  }

  ghost predicate StillCovered(before: seq<Entry>, after: seq<Entry>, entries: seq<Entry>) {
    forall e: Entry :: e in after <==> e in before && Covered(entries, e.path)
  }

  /** A global transition publishes the new ceiling and deletes exactly the rows that
      nothing above them covers any more. */
  lemma TransitionDoes(s: State, entries: seq<Entry>)
    requires Schema(s)
    ensures Next(s, SetGlobal(entries)).global == entries && Reconciled(s, entries, Next(s, SetGlobal(entries)))
  {
    hide Compose, Covered, Under, Rows, PrunedOrSame, StillCovered;
    var g := s.(global := entries);
    var t := Cascade(g, true, 0);
    forall p | p in s.principals ensures StillCovered(s.principals[p], t.principals[p], entries) {
      KeptAreCovered(s.principals[p], entries);
    }
    forall l | l in s.launchers
      ensures PrunedOrSame(s.launchers[l], t.launchers[l], s.launchers[l].scope == Restricted,
                           entries, t.principals[s.launchers[l].owner])
    {
      CascadePrunes(g, true, 0, l);
    }
  }

  lemma KeptAreCovered(roots: seq<Entry>, entries: seq<Entry>)
    ensures StillCovered(roots, Keep(roots, entries), entries)
  {
    hide Covered;
    KeepElements(roots, entries);
  }
}
