// Stored allowed roots of three levels: the global ceiling, the roots of each
// Principal, the roots of each Launcher (allowed_root_cascade.go,
// lifecycle_owner.go, the root mutations of principal.go and launcher.go).
//
// The tables are values here; StoredRootsStore.dfy updates them in place.
module StoredRoots {
  import opened Order
  import opened Paths
  import opened Policy
  import opened CanonicalForm
  import opened Composition

  datatype Scope = Inherit | Restricted

  /** A launchers row with its launcher_allowed_roots rows in root_path order. */
  datatype Launcher = Launcher(owner: int, scope: Scope, roots: seq<Entry>)

  /** The published global ceiling and the stored rows. A Principal's rows are in root_path order. */
  datatype State = State(global: seq<Entry>, principals: map<int, seq<Entry>>, launchers: map<string, Launcher>)

  /** Root rows as the schema admits them: unique paths, read back in path order, known access. */
  ghost predicate Rows(roots: seq<Entry>) {
    StrictlyAscending(PathKey, roots) && DistinctPaths(roots) && forall e | e in roots :: !e.access.Unknown?
  }

  /** What the database schema enforces. */
  ghost predicate Schema(s: State) {
    && (forall p | p in s.principals :: p > 0 && Rows(s.principals[p]))
    && (forall l | l in s.launchers :: s.launchers[l].owner in s.principals && Rows(s.launchers[l].roots))
  }

  /** effectivePrincipalAllowedRoots. */
  ghost function Ceiling(s: State, principal: int): seq<Entry>
    requires principal in s.principals
  {
    Compose(s.global, s.principals[principal])
  }

  ghost predicate InheritsNothing(s: State) {
    forall l | l in s.launchers && s.launchers[l].scope == Inherit :: s.launchers[l].roots == []
  }

  /** Every root of every restricted Launcher lies in its Principal's effective ceiling. */
  ghost predicate Contained(s: State)
    requires Schema(s)
  {
    forall l, e | l in s.launchers && s.launchers[l].scope == Restricted && e in s.launchers[l].roots ::
      Covered(Ceiling(s, s.launchers[l].owner), e.path)
  }

  ghost predicate PrincipalsUnderGlobal(s: State) {
    forall p, e | p in s.principals && e in s.principals[p] :: Covered(s.global, e.path)
  }

  ghost predicate Coherent(s: State) {
    Schema(s) && InheritsNothing(s) && PrincipalsUnderGlobal(s) && Contained(s)
  }

  // ---------------------------------------------- effective Launcher policy

  /** effectiveLauncherAllowedRoots: None is ErrLauncherUnavailable. */
  ghost function EffectiveRoots(s: State, id: string): Option<seq<Entry>>
    requires Schema(s) && id in s.launchers
  {
    var l := s.launchers[id];
    var ceiling := Ceiling(s, l.owner);
    if l.scope == Inherit then Some(ceiling)
    else if forall e | e in l.roots :: Covered(ceiling, e.path) then Some(Compose(ceiling, l.roots))
    else None
  }

  /** The effective policy is available for every Launcher exactly in the contained states. */
  lemma AlwaysAvailableIff(s: State)
    requires Schema(s)
    ensures Contained(s) <==> forall id | id in s.launchers :: EffectiveRoots(s, id).Some?
  {
    hide Covered, Compose, Rows;
    if Contained(s) {
      forall id | id in s.launchers ensures EffectiveRoots(s, id).Some? {}
    }
    if forall id | id in s.launchers :: EffectiveRoots(s, id).Some? {
      forall l, e | l in s.launchers && s.launchers[l].scope == Restricted && e in s.launchers[l].roots
        ensures Covered(Ceiling(s, s.launchers[l].owner), e.path)
      {
        assert EffectiveRoots(s, l).Some?;
      }
    }
  }

  /** Path p lies under both scopes and both are well formed: when the composed ceiling covers p. */
  ghost predicate Under(global: seq<Entry>, stored: seq<Entry>, p: Path) {
    Valid(global) && Valid(stored) && Covered(global, p) && Covered(stored, p)
  }

  lemma CeilingCovers(global: seq<Entry>, stored: seq<Entry>, p: Path)
    ensures Covered(Compose(global, stored), p) <==> Under(global, stored, p)
  {
    hide Covered, Valid;
    if Valid(global) && Valid(stored) {
      ComposeCovers(global, stored, p);
    } else {
      NothingCovered(p);
    }
  }

  lemma NothingCovered(p: Path)
    ensures !Covered([], p)
  {
  }

  // ------------------------------------------------------------- rows

  /** The rows the cascade keeps: those some ceiling entry wholly contains. */
  ghost function Keep(roots: seq<Entry>, ceiling: seq<Entry>): seq<Entry> {
    if roots == [] then []
    else
      var n := |roots| - 1;
      if Covered(ceiling, roots[n].path) then Keep(roots[..n], ceiling) + [roots[n]] else Keep(roots[..n], ceiling)
  }

  lemma {:induction false} KeepElements(roots: seq<Entry>, ceiling: seq<Entry>)
    ensures forall e :: e in Keep(roots, ceiling) <==> e in roots && Covered(ceiling, e.path)
    ensures |Keep(roots, ceiling)| <= |roots|
  {
    hide Covered;
    if roots != [] {
      var n := |roots| - 1;
      KeepElements(roots[..n], ceiling);
      assert roots == roots[..n] + [roots[n]];
    }
  }

  lemma {:induction false} KeepRows(roots: seq<Entry>, ceiling: seq<Entry>)
    requires Rows(roots)
    ensures Rows(Keep(roots, ceiling))
  {
    hide Covered, LexLess;
    if roots != [] {
      var n := |roots| - 1;
      KeepRows(roots[..n], ceiling);
      KeepElements(roots[..n], ceiling);
      var k := Keep(roots[..n], ceiling);
      forall i | 0 <= i < |k| ensures LexLess(PathKey(k[i]), PathKey(roots[n])) && k[i].path != roots[n].path {
        assert k[i] in roots[..n];
      }
    }
  }

  lemma {:induction false} KeepAll(roots: seq<Entry>, ceiling: seq<Entry>)
    requires forall e | e in roots :: Covered(ceiling, e.path)
    ensures Keep(roots, ceiling) == roots
  {
    hide Covered;
    if roots != [] {
      var n := |roots| - 1;
      KeepAll(roots[..n], ceiling);
      assert roots == roots[..n] + [roots[n]];
    }
  }

  /** DELETE of one exact path. */
  function Without(roots: seq<Entry>, p: Path): seq<Entry> {
    if roots == [] then []
    else
      var n := |roots| - 1;
      if roots[n].path == p then Without(roots[..n], p) else Without(roots[..n], p) + [roots[n]]
  }

  lemma {:induction false} WithoutElements(roots: seq<Entry>, p: Path)
    ensures forall e :: e in Without(roots, p) <==> e in roots && e.path != p
  {
    if roots != [] {
      var n := |roots| - 1;
      WithoutElements(roots[..n], p);
      assert roots == roots[..n] + [roots[n]];
    }
  }

  lemma {:induction false} WithoutStaysRows(roots: seq<Entry>, p: Path)
    requires Rows(roots)
    ensures Rows(Without(roots, p))
  {
    hide LexLess;
    if roots != [] {
      var n := |roots| - 1;
      WithoutStaysRows(roots[..n], p);
      WithoutElements(roots[..n], p);
      var k := Without(roots[..n], p);
      forall i | 0 <= i < |k| ensures LexLess(PathKey(k[i]), PathKey(roots[n])) && k[i].path != roots[n].path {
        assert k[i] in roots[..n];
      }
    }
  }

  lemma WithoutRows(roots: seq<Entry>, p: Path)
    ensures forall e :: e in Without(roots, p) <==> e in roots && e.path != p
    ensures Rows(roots) ==> Rows(Without(roots, p))
  {
    hide Rows;
    WithoutElements(roots, p);
    if Rows(roots) { WithoutStaysRows(roots, p); }
  }

  /** INSERT OR IGNORE: a stored path keeps its row. */
  function With(roots: seq<Entry>, e: Entry): seq<Entry> {
    if HasPath(roots, e.path) then roots else SortBy(PathKey, roots + [e])
  }

  lemma WithRows(roots: seq<Entry>, e: Entry)
    requires Rows(roots) && !e.access.Unknown?
    ensures Rows(With(roots, e))
    ensures forall d :: d in With(roots, e) <==> d in roots || (d == e && !HasPath(roots, e.path))
  {
    hide LexLess;
    if !HasPath(roots, e.path) {
      var all := roots + [e];
      forall i, j | 0 <= i < j < |all| ensures all[i].path != all[j].path {
        if j == |roots| { assert all[i] in roots; }
      }
      SortedRows(all);
      SortByCorrect(PathKey, all);
    }
  }

  /** Rows of distinct paths read back in path order. */
  lemma SortedRows(all: seq<Entry>)
    requires DistinctPaths(all) && forall e | e in all :: !e.access.Unknown?
    ensures Rows(SortBy(PathKey, all)) && forall e :: e in SortBy(PathKey, all) <==> e in all
  {
    hide LexLess;
    forall i, j | 0 <= i < j < |all| ensures PathKey(all[i]) != PathKey(all[j]) {
      if PathKey(all[i]) == PathKey(all[j]) { CodesInjective(all[i].path, all[j].path); }
    }
    SortByStrict(PathKey, all);
    SortByCorrect(PathKey, all);
    var s := SortBy(PathKey, all);
    forall i, j | 0 <= i < j < |s| ensures s[i].path != s[j].path {
      LexIrreflexive(PathKey(s[i]));
    }
  }

  /** UPDATE of the access of one exact path. */
  function WithAccess(roots: seq<Entry>, p: Path, access: Access): seq<Entry> {
    seq(|roots|, i requires 0 <= i < |roots| => if roots[i].path == p then Entry(p, access) else roots[i])
  }

  lemma WithAccessAt(roots: seq<Entry>, p: Path, access: Access)
    ensures var w := WithAccess(roots, p, access);
            && |w| == |roots|
            && (forall i | 0 <= i < |roots| :: w[i].path == roots[i].path && PathKey(w[i]) == PathKey(roots[i]))
            && (forall i | 0 <= i < |roots| :: w[i].access == if roots[i].path == p then access else roots[i].access)
  {
  }

  lemma WithAccessRows(roots: seq<Entry>, p: Path, access: Access)
    requires !access.Unknown?
    ensures Rows(roots) ==> Rows(WithAccess(roots, p, access))
    ensures forall q :: Covered(WithAccess(roots, p, access), q) <==> Covered(roots, q)
    ensures Valid(roots) ==> Valid(WithAccess(roots, p, access))
    ensures forall e | e in WithAccess(roots, p, access) :: HasPath(roots, e.path)
  {
    hide LexLess, Within, Canonical, WithAccess, Covered, PathKey;
    var w := WithAccess(roots, p, access);
    WithAccessAt(roots, p, access);
    forall q ensures Covered(w, q) <==> Covered(roots, q) { SamePathsCover(w, roots, q); }
    forall e | e in w ensures HasPath(roots, e.path) && exists i :: 0 <= i < |roots| && roots[i].path == e.path {
      var i :| 0 <= i < |w| && w[i] == e;
      assert roots[i] in roots && roots[i].path == e.path;
    }
    WithAccessValid(roots, w, access);
    WithAccessSorted(roots, w, access);
  }

  lemma WithAccessValid(roots: seq<Entry>, w: seq<Entry>, access: Access)
    requires !access.Unknown? && |w| == |roots|
    requires forall i | 0 <= i < |roots| ::
             w[i].path == roots[i].path && (w[i].access == access || w[i].access == roots[i].access)
    ensures Valid(roots) ==> Valid(w)
  {
    hide Canonical;
    if Valid(roots) {
      forall e | e in w ensures ValidEntry(e) {
        var i :| 0 <= i < |w| && w[i] == e;
        assert roots[i] in roots;
      }
    }
  }

  lemma WithAccessSorted(roots: seq<Entry>, w: seq<Entry>, access: Access)
    requires !access.Unknown? && |w| == |roots|
    requires forall i | 0 <= i < |roots| :: w[i].path == roots[i].path && PathKey(w[i]) == PathKey(roots[i]) &&
                                            (w[i].access == access || w[i].access == roots[i].access)
    ensures Rows(roots) ==> Rows(w)
  {
    hide LexLess, PathKey;
    if Rows(roots) {
      forall e | e in w ensures !e.access.Unknown? {
        var i :| 0 <= i < |w| && w[i] == e;
        assert roots[i] in roots;
      }
    }
  }

  lemma SamePathsCover(a: seq<Entry>, b: seq<Entry>, q: Path)
    requires |a| == |b| && forall i | 0 <= i < |a| :: a[i].path == b[i].path
    ensures Covered(a, q) <==> Covered(b, q)
  {
    hide Within;
    if e :| e in a && Within(e.path, q) { var i :| 0 <= i < |a| && a[i] == e; assert b[i] in b; }
    if e :| e in b && Within(e.path, q) { var i :| 0 <= i < |b| && b[i] == e; assert a[i] in a; }
  }

  // --------------------------------------------------------- the cascade

  /** pruneStoredAllowedRootsToCeilings: `all` prunes every Principal against the
      global paths and every restricted Launcher; otherwise only the restricted
      Launchers of one Principal. */
  ghost function Cascade(s: State, all: bool, principal: int): State
    requires Schema(s)
  {
    var kept := map p | p in s.principals :: if all then Keep(s.principals[p], s.global) else s.principals[p];
    State(s.global, kept,
          map l | l in s.launchers ::
            if s.launchers[l].scope == Restricted && (all || s.launchers[l].owner == principal)
            then s.launchers[l].(roots := Keep(s.launchers[l].roots, Compose(s.global, kept[s.launchers[l].owner])))
            else s.launchers[l])
  }

  lemma CascadeSchema(s: State, all: bool, principal: int)
    requires Schema(s)
    ensures Schema(Cascade(s, all, principal))
  {
    hide Compose, Rows;
    var t := Cascade(s, all, principal);
    forall p | p in t.principals ensures p > 0 && Rows(t.principals[p]) { KeepRows(s.principals[p], s.global); }
    forall l | l in t.launchers ensures t.launchers[l].owner in t.principals && Rows(t.launchers[l].roots) {
      KeepRows(s.launchers[l].roots, Ceiling(t, s.launchers[l].owner));
    }
  }

  /** The cascade deletes exactly the rows it is scoped to that their resulting
      parent ceiling does not contain, and changes nothing else. */
  lemma CascadeDeletesExactlyUncovered(s: State, all: bool, principal: int)
    requires Schema(s)
    ensures var t := Cascade(s, all, principal);
            && Schema(t) && t.global == s.global && t.principals.Keys == s.principals.Keys &&
               t.launchers.Keys == s.launchers.Keys
            && (forall p, e | p in s.principals ::
                  e in t.principals[p] <==> e in s.principals[p] && (all ==> Covered(s.global, e.path)))
            && (forall l | l in s.launchers ::
                  t.launchers[l].owner == s.launchers[l].owner && t.launchers[l].scope == s.launchers[l].scope)
            && (forall l, e | l in s.launchers ::
                  e in t.launchers[l].roots <==>
                  (e in s.launchers[l].roots &&
                   (s.launchers[l].scope == Restricted && (all || s.launchers[l].owner == principal) ==>
                      Covered(Ceiling(t, s.launchers[l].owner), e.path))))
  {
    hide Compose, Rows, Covered;
    CascadeSchema(s, all, principal);
    var t := Cascade(s, all, principal);
    forall p | p in s.principals
        ensures forall e :: e in t.principals[p] <==> e in s.principals[p] && (all ==> Covered(s.global, e.path)) {
      KeepElements(s.principals[p], s.global);
    }
    forall l | l in s.launchers
      ensures forall e :: e in Keep(s.launchers[l].roots, Ceiling(t, s.launchers[l].owner)) <==>
                          e in s.launchers[l].roots && Covered(Ceiling(t, s.launchers[l].owner), e.path)
    {
      KeepElements(s.launchers[l].roots, Ceiling(t, s.launchers[l].owner));
    }
  }

  /** In a contained state whose Principal rows lie under the global ceiling there is nothing to delete. */
  lemma CascadeFixed(s: State, all: bool, principal: int)
    requires Schema(s)
    requires all ==> forall p, e | p in s.principals && e in s.principals[p] :: Covered(s.global, e.path)
    requires forall l, e | l in s.launchers && s.launchers[l].scope == Restricted && e in s.launchers[l].roots &&
                           (all || s.launchers[l].owner == principal) ::
                               Covered(Ceiling(s, s.launchers[l].owner), e.path)
    ensures Cascade(s, all, principal) == s
  {
    hide Compose, Rows, Covered;
    var t := Cascade(s, all, principal);
    forall p | p in s.principals ensures t.principals[p] == s.principals[p] {
      if all { KeepAll(s.principals[p], s.global); }
    }
    assert t.principals == s.principals;
    forall l | l in s.launchers ensures t.launchers[l] == s.launchers[l] {
      if s.launchers[l].scope == Restricted && (all || s.launchers[l].owner == principal) {
        KeepAll(s.launchers[l].roots, Ceiling(s, s.launchers[l].owner));
      }
    }
    assert t.launchers == s.launchers;
  }

  lemma CascadeIdempotent(s: State, all: bool, principal: int)
    requires Schema(s)
    ensures var t := Cascade(s, all, principal); Schema(t) && Cascade(t, all, principal) == t
  {
    hide Compose, Rows, Covered, Cascade;
    CascadeDeletesExactlyUncovered(s, all, principal);
    CascadeFixed(Cascade(s, all, principal), all, principal);
  }

  /** After the cascade the Launchers it is scoped to are contained. */
  lemma CascadeContains(s: State, all: bool, principal: int)
    requires Schema(s)
    requires forall l, e | l in s.launchers && s.launchers[l].scope == Restricted && e in s.launchers[l].roots &&
                           !all && s.launchers[l].owner != principal ::
                               Covered(Ceiling(s, s.launchers[l].owner), e.path)
    ensures var t := Cascade(s, all, principal);
            Schema(t) && Contained(t) && (InheritsNothing(s) ==> InheritsNothing(t))
  {
    hide Compose, Rows, Covered;
    CascadeDeletesExactlyUncovered(s, all, principal);
    var t := Cascade(s, all, principal);
    if !all { assert t.principals == s.principals; }
  }

  /** A transition that changes nothing about the ceilings deletes nothing. */
  lemma CoherentIsFixed(s: State, all: bool, principal: int)
    requires Coherent(s)
    ensures Cascade(s, all, principal) == s
  {
    hide Compose, Rows, Covered, Cascade;
    CascadeFixed(s, all, principal);
  }

  // ------------------------------------------------------ requested roots

  /** One root of a request; None is a path the filesystem boundary refused. */
  datatype Requested = Requested(path: Option<CanonicalPath>, access: Access)

  datatype RootError =
    | NoRoots
    | RootsOnInherit
    | InvalidAccess
    | InvalidRoot
    | OutsidePrincipal(path: Path)
    | ConflictingAccess(path: Path)

  ghost predicate AdmissibleRoot(r: Requested, ceiling: seq<Entry>) {
    !r.access.Unknown? && r.path.Some? && Covered(ceiling, r.path.value)
  }

  ghost predicate Admissible(requested: seq<Requested>, ceiling: seq<Entry>) {
    && requested != []
    && (forall r | r in requested :: AdmissibleRoot(r, ceiling))
    && (forall i, j | 0 <= i < j < |requested| && requested[i].path == requested[j].path ::
          requested[i].access == requested[j].access)
  }

  /** First occurrence of every requested path. */
  ghost function FirstOccurrences(requested: seq<Requested>): seq<Entry> {
    if requested == [] then []
    else
      var n := |requested| - 1;
      var before, r := FirstOccurrences(requested[..n]), requested[n];
      if r.path.None? || HasPath(before, r.path.value) then before else before + [Entry(r.path.value, r.access)]
  }

  ghost function CanonicalRows(requested: seq<Requested>): seq<Entry> {
    SortBy(PathKey, FirstOccurrences(requested))
  }

  lemma {:induction false} FirstOccurrenceElements(requested: seq<Requested>, ceiling: seq<Entry>)
    requires forall r | r in requested :: AdmissibleRoot(r, ceiling)
    requires forall i, j | 0 <= i < j < |requested| && requested[i].path == requested[j].path ::
               requested[i].access == requested[j].access
    ensures var f := FirstOccurrences(requested);
            && DistinctPaths(f)
            && (forall e: Entry ::
               e in f <==> exists r :: r in requested && r.path == Some(e.path) && r.access == e.access)
            && (forall e | e in f :: !e.access.Unknown? && Covered(ceiling, e.path))
  {
    hide Covered;
    if requested != [] {
      var n := |requested| - 1;
      var r := requested[n];
      FirstOccurrenceElements(requested[..n], ceiling);
      var before, f := FirstOccurrences(requested[..n]), FirstOccurrences(requested);
      assert requested == requested[..n] + [r];
      assert AdmissibleRoot(r, ceiling);
      var own := Entry(r.path.value, r.access);
      if HasPath(before, own.path) {
        var d :| d in before && d.path == own.path;
        var q :| q in requested[..n] && q.path == Some(d.path) && q.access == d.access;
        assert d == own;
      }
      forall e: Entry ensures e in f <==> exists q :: q in requested && q.path == Some(e.path) && q.access == e.access {
        assert e in f <==> e in before || e == own;
        if e == own { assert r in requested && r.path == Some(e.path); }
      }
    }
  }

  /** The stored rows are exactly the distinct requested roots, in path order. */
  lemma CanonicalRowsElements(requested: seq<Requested>, ceiling: seq<Entry>)
    requires Admissible(requested, ceiling)
    ensures var c := CanonicalRows(requested);
            && Rows(c)
            && (forall e: Entry ::
               e in c <==> exists r :: r in requested && r.path == Some(e.path) && r.access == e.access)
            && (forall e | e in c :: Covered(ceiling, e.path))
  {
    hide Covered, LexLess, Rows;
    FirstOccurrenceElements(requested, ceiling);
    SortedRows(FirstOccurrences(requested));
  }

  // --------------------------------------------------------------- steps

  datatype Step =
    | SetGlobal(entries: seq<Entry>)
    | CreatePrincipal(principal: int, home: Option<CanonicalPath>, launcher: string)
    | DeletePrincipal(principal: int)
    | AddPrincipalRoot(principal: int, path: CanonicalPath, access: Access)
    | RemovePrincipalRoot(principal: int, root: Path)
    | SetPrincipalAccess(principal: int, root: Path, access: Access)
    | CreateLauncher(launcher: string, principal: int, scope: Scope, requested: seq<Requested>)
    | ReplaceScope(launcher: string, scope: Scope, requested: seq<Requested>)
    | AddLauncherRoot(launcher: string, path: CanonicalPath, access: Access)
    | RemoveLauncherRoot(launcher: string, root: Path)
    | SetLauncherAccess(launcher: string, root: Path, access: Access)
    | DeleteLauncher(launcher: string)

  /** Restricted scope needs admissible roots, inherit scope takes none. */
  ghost predicate ScopeAdmissible(s: State, owner: int, scope: Scope, requested: seq<Requested>)
    requires owner in s.principals
  {
    if scope == Restricted then Admissible(requested, Ceiling(s, owner)) else requested == []
  }

  /** When the source performs the mutation instead of refusing it. */
  ghost predicate Enabled(s: State, step: Step)
    requires Schema(s)
  {
    match step
    case SetGlobal(_) => true
    case CreatePrincipal(p, home, l) =>
        p > 0 && p !in s.principals && l !in s.launchers && home.Some? && Covered(s.global, home.value)
    case DeletePrincipal(p) => p in s.principals
    case AddPrincipalRoot(p, path, access) => p in s.principals && !access.Unknown? && Covered(s.global, path)
    case RemovePrincipalRoot(p, _) => p in s.principals
    case SetPrincipalAccess(p, path, access) => p in s.principals && !access.Unknown? && HasPath(s.principals[p], path)
    case CreateLauncher(l, p, scope, requested) =>
        p in s.principals && l !in s.launchers && ScopeAdmissible(s, p, scope, requested)
    case ReplaceScope(l, scope, requested) =>
        l in s.launchers && ScopeAdmissible(s, s.launchers[l].owner, scope, requested)
    case AddLauncherRoot(l, path, access) =>
        l in s.launchers && !access.Unknown? && Covered(Ceiling(s, s.launchers[l].owner), path)
    case RemoveLauncherRoot(l, _) => l in s.launchers
    case SetLauncherAccess(l, path, access) =>
        l in s.launchers && !access.Unknown? && HasPath(s.launchers[l].roots, path)
    case DeleteLauncher(l) => l in s.launchers
  }

  ghost function Stored(scope: Scope, requested: seq<Requested>): seq<Entry> {
    if scope == Restricted then CanonicalRows(requested) else []
  }

  ghost function AddedTo(l: Launcher, e: Entry): Launcher {
    if HasPath(l.roots, e.path) then l else Launcher(l.owner, Restricted, With(l.roots, e))
  }

  ghost function Next(s: State, step: Step): State
    requires Schema(s)
  {
    if !Enabled(s, step) then s else
    match step
    case SetGlobal(entries) => Cascade(s.(global := entries), true, 0)
    case CreatePrincipal(p, home, l) =>
      s.(principals := s.principals[p := [Entry(home.value, ReadWrite)]],
          launchers := s.launchers[l := Launcher(p, Inherit, [])])
    case DeletePrincipal(p) =>
      s.(principals := s.principals - {p}, launchers := map l | l in s.launchers && s.launchers[l].owner != p ::
          s.launchers[l])
    case AddPrincipalRoot(p, path, access) =>
        s.(principals := s.principals[p := With(s.principals[p], Entry(path, access))])
    case RemovePrincipalRoot(p, path) =>
      if HasPath(s.principals[p], path) then Cascade(Removed(s, p, path), false, p) else s
    case SetPrincipalAccess(p, path, access) =>
        s.(principals := s.principals[p := WithAccess(s.principals[p], path, access)])
    case CreateLauncher(l, p, scope, requested) =>
        s.(launchers := s.launchers[l := Launcher(p, scope, Stored(scope, requested))])
    case ReplaceScope(l, scope, requested) =>
      s.(launchers := s.launchers[l := Launcher(s.launchers[l].owner, scope, Stored(scope, requested))])
    case AddLauncherRoot(l, path, access) =>
        s.(launchers := s.launchers[l := AddedTo(s.launchers[l], Entry(path, access))])
    case RemoveLauncherRoot(l, path) =>
      s.(launchers := s.launchers[l := s.launchers[l].(roots := Without(s.launchers[l].roots, path))])
    case SetLauncherAccess(l, path, access) =>
      s.(launchers := s.launchers[l := s.launchers[l].(roots := WithAccess(s.launchers[l].roots, path, access))])
    case DeleteLauncher(l) => s.(launchers := s.launchers - {l})
  }

  /** The Principal without one stored root, before its Launchers are reconciled. */
  ghost function Removed(s: State, p: int, path: Path): (t: State)
    requires Schema(s) && p in s.principals
    ensures Schema(t)
  {
    WithoutRows(s.principals[p], path);
    s.(principals := s.principals[p := Without(s.principals[p], path)])
  }

  /** The startup reconciliation, and every reload, establishes coherence from any
      schema-valid tables in which inherit Launchers store no roots. */
  lemma TransitionEstablishes(s: State, entries: seq<Entry>)
    requires Schema(s) && InheritsNothing(s)
    ensures Coherent(Next(s, SetGlobal(entries)))
  {
    hide Compose, Rows, Covered, Cascade;
    var g := s.(global := entries);
    CascadeContains(g, true, 0);
    CascadeDeletesExactlyUncovered(g, true, 0);
  }

  /** A root under the old ceiling stays under it when the Principal's rows gain coverage. */
  lemma CeilingGrows(global: seq<Entry>, before: seq<Entry>, after: seq<Entry>, p: Path)
    requires Covered(Compose(global, before), p)
    requires Valid(before) ==> Valid(after)
    requires Covered(before, p) ==> Covered(after, p)
    ensures Covered(Compose(global, after), p)
  {
    hide Compose, Covered, Valid;
    CeilingCovers(global, before, p);
    CeilingCovers(global, after, p);
  }

  lemma WithGrows(roots: seq<Entry>, e: Entry, p: Path)
    requires Rows(roots) && !e.access.Unknown? && Canonical(e.path)
    ensures Valid(roots) ==> Valid(With(roots, e))
    ensures Covered(roots, p) ==> Covered(With(roots, e), p)
  {
    hide LexLess, Within, Canonical;
    WithRows(roots, e);
  }

  /** One Principal's rows change and gain coverage: its Launchers stay contained. */
  lemma PrincipalRowsGrow(s: State, p: int, after: seq<Entry>)
    requires Coherent(s) && p in s.principals && Rows(after)
    requires Valid(s.principals[p]) ==> Valid(after)
    requires forall q :: Covered(s.principals[p], q) ==> Covered(after, q)
    requires forall e | e in after :: Covered(s.global, e.path)
    ensures Coherent(s.(principals := s.principals[p := after]))
  {
    hide Compose, Covered, Rows, Valid;
    var t := s.(principals := s.principals[p := after]);
    forall l, e | l in t.launchers && t.launchers[l].scope == Restricted && e in t.launchers[l].roots
      ensures Covered(Ceiling(t, t.launchers[l].owner), e.path)
    {
      assert Covered(Ceiling(s, s.launchers[l].owner), e.path);
      if t.launchers[l].owner == p { CeilingGrows(s.global, s.principals[p], after, e.path); }
    }
  }

  /** One Launcher row changes to rows its ceiling contains. */
  lemma LauncherRowsChange(s: State, l: string, row: Launcher)
    requires Coherent(s) && row.owner in s.principals && Rows(row.roots)
    requires row.scope == Inherit ==> row.roots == []
    requires forall e | e in row.roots :: Covered(Ceiling(s, row.owner), e.path)
    ensures Coherent(s.(launchers := s.launchers[l := row]))
  {
    hide Compose, Covered, Rows;
    var t := s.(launchers := s.launchers[l := row]);
    forall k, e | k in t.launchers && t.launchers[k].scope == Restricted && e in t.launchers[k].roots
      ensures Covered(Ceiling(t, t.launchers[k].owner), e.path)
    {
      if k != l { assert Covered(Ceiling(s, s.launchers[k].owner), e.path); }
    }
  }

  lemma RemovalKeeps(s: State, p: int, path: Path)
    requires Coherent(s) && p in s.principals
    ensures Coherent(Cascade(Removed(s, p, path), false, p))
  {
    hide Compose, Covered, Rows, Cascade;
    var r := Removed(s, p, path);
    WithoutRows(s.principals[p], path);
    forall l, e | l in r.launchers && r.launchers[l].scope == Restricted && e in r.launchers[l].roots &&
        r.launchers[l].owner != p
      ensures Covered(Ceiling(r, r.launchers[l].owner), e.path)
    {
      assert Covered(Ceiling(s, s.launchers[l].owner), e.path);
    }
    CascadeContains(r, false, p);
    CascadeDeletesExactlyUncovered(r, false, p);
  }

  lemma PrincipalStepKeeps(s: State, step: Step)
    requires Coherent(s) && Enabled(s, step)
    requires step.AddPrincipalRoot? || step.SetPrincipalAccess? || step.CreatePrincipal?
    ensures Coherent(Next(s, step))
  {
    hide Compose, Covered, Rows, Cascade, With, WithAccess, Valid, HasPath;
    var p := step.principal;
    if step.CreatePrincipal? {
      CreationKeeps(s, p, step.home.value, step.launcher);
    } else if step.AddPrincipalRoot? {
      var e := Entry(step.path, step.access);
      WithRows(s.principals[p], e);
      forall q ensures Covered(s.principals[p], q) ==>
          Covered(With(s.principals[p], e), q) { WithGrows(s.principals[p], e, q); }
      WithGrows(s.principals[p], e, step.path);
      PrincipalRowsGrow(s, p, With(s.principals[p], e));
    } else {
      WithAccessRows(s.principals[p], step.root, step.access);
      var after := WithAccess(s.principals[p], step.root, step.access);
      forall e | e in after ensures Covered(s.global, e.path) {
        HasPathMember(s.principals[p], e.path);
      }
      PrincipalRowsGrow(s, p, after);
    }
  }

  lemma HasPathMember(es: seq<Entry>, p: Path)
    requires HasPath(es, p)
    ensures exists e :: e in es && e.path == p
  {
  }

  lemma CreationKeeps(s: State, p: int, home: CanonicalPath, l: string)
    requires Coherent(s) && p > 0 && p !in s.principals && Covered(s.global, home)
    ensures Coherent(s.(principals := s.principals[p := [Entry(home, ReadWrite)]],
            launchers := s.launchers[l := Launcher(p, Inherit, [])]))
  {
    hide Compose, Covered;
    var t := s.(principals := s.principals[p := [Entry(home, ReadWrite)]],
        launchers := s.launchers[l := Launcher(p, Inherit, [])]);
    forall k, e | k in t.launchers && t.launchers[k].scope == Restricted && e in t.launchers[k].roots
      ensures Covered(Ceiling(t, t.launchers[k].owner), e.path)
    {
      assert Covered(Ceiling(s, s.launchers[k].owner), e.path);
    }
  }

  lemma LauncherStepKeeps(s: State, step: Step)
    requires Coherent(s) && Enabled(s, step)
    requires step.CreateLauncher? || step.ReplaceScope? || step.AddLauncherRoot? || step.RemoveLauncherRoot? ||
             step.SetLauncherAccess?
    ensures Coherent(Next(s, step))
  {
    hide Compose, Covered, Rows, Cascade, With, WithAccess, Without, HasPath, CanonicalRows, Admissible;
    var l := step.launcher;
    if step.CreateLauncher? || step.ReplaceScope? {
      var owner := if step.CreateLauncher? then step.principal else s.launchers[l].owner;
      if step.scope == Restricted { CanonicalRowsElements(step.requested, Ceiling(s, owner)); } else { EmptyRows(); }
      LauncherRowsChange(s, l, Launcher(owner, step.scope, Stored(step.scope, step.requested)));
    } else {
      var row := s.launchers[l];
      assert row.scope == Inherit ==> row.roots == [];
      forall e | e in row.roots ensures Covered(Ceiling(s, row.owner), e.path) {
        assert row.scope == Restricted;
      }
      if step.AddLauncherRoot? {
        WithRows(row.roots, Entry(step.path, step.access));
        LauncherRowsChange(s, l, AddedTo(row, Entry(step.path, step.access)));
      } else if step.RemoveLauncherRoot? {
        WithoutRows(row.roots, step.root);
        RowsShrinkToEmpty(row.roots, Without(row.roots, step.root));
        LauncherRowsChange(s, l, row.(roots := Without(row.roots, step.root)));
      } else {
        WithAccessRows(row.roots, step.root, step.access);
        var after := WithAccess(row.roots, step.root, step.access);
        assert row.roots == [] ==> after == [] by { WithAccessEmpty(step.root, step.access); }
        forall e | e in after ensures Covered(Ceiling(s, row.owner), e.path) { HasPathMember(row.roots, e.path); }
        LauncherRowsChange(s, l, row.(roots := after));
      }
    }
  }

  lemma EmptyRows()
    ensures Rows([])
  {
  }

  lemma WithAccessEmpty(p: Path, access: Access)
    ensures WithAccess([], p, access) == []
  {
  }

  lemma RowsShrinkToEmpty(a: seq<Entry>, b: seq<Entry>)
    requires forall e | e in b :: e in a
    ensures a == [] ==> b == []
  {
    if b != [] { assert b[0] in b; }
  }

  lemma DeletionKeeps(s: State, step: Step)
    requires Coherent(s) && Enabled(s, step) && (step.DeletePrincipal? || step.DeleteLauncher?)
    ensures Coherent(Next(s, step))
  {
    hide Compose, Covered, Rows, Cascade;
    var t := Next(s, step);
    forall k, e | k in t.launchers && t.launchers[k].scope == Restricted && e in t.launchers[k].roots
      ensures Covered(Ceiling(t, t.launchers[k].owner), e.path)
    {
      assert Covered(Ceiling(s, s.launchers[k].owner), e.path);
    }
  }

  /** Every mutation keeps the stored roots coherent. */
  lemma StepKeepsCoherence(s: State, step: Step)
    requires Coherent(s)
    ensures Coherent(Next(s, step))
  {
    hide Compose, Covered, Rows, Cascade, InheritsNothing, Contained, PrincipalsUnderGlobal, Schema, HasPath, Removed,
        Next;
    if !Enabled(s, step) { Refused(s, step); return; }
    match step
    case SetGlobal(entries) => assert Schema(s) && InheritsNothing(s); TransitionEstablishes(s, entries);
    case RemovePrincipalRoot(p, path) => RemovalStep(s, p, path);
    case DeletePrincipal(_) => DeletionKeeps(s, step);
    case DeleteLauncher(_) => DeletionKeeps(s, step);
    case AddPrincipalRoot(_, _, _) => PrincipalStepKeeps(s, step);
    case SetPrincipalAccess(_, _, _) => PrincipalStepKeeps(s, step);
    case CreatePrincipal(_, _, _) => PrincipalStepKeeps(s, step);
    case _ => LauncherStepKeeps(s, step);
  }

  lemma Refused(s: State, step: Step)
    requires Schema(s) && !Enabled(s, step)
    ensures Next(s, step) == s
  {
  }

  lemma RemovalStep(s: State, p: int, path: Path)
    requires Coherent(s) && Enabled(s, RemovePrincipalRoot(p, path))
    ensures Coherent(Next(s, RemovePrincipalRoot(p, path)))
  {
    hide Compose, Covered, Rows, Cascade, Contained, Removed;
    RemovalKeeps(s, p, path);
  }

  /** Some sequence of mutations leads from s to t. */
  ghost predicate Reaches(s: State, steps: seq<Step>, t: State)
    requires Schema(s)
    decreases |steps|
  {
    if steps == [] then t == s
    else Schema(Next(s, steps[0])) && Reaches(Next(s, steps[0]), steps[1..], t)
  }

  /** From startup on, after any sequence of global, Principal and Launcher mutations:
      inherit Launchers store no roots, every stored root lies under its parent, and
      the effective policy of every Launcher is available. */
  lemma {:induction false} EveryRunIsCoherent(s: State, steps: seq<Step>, t: State)
    requires Coherent(s) && Reaches(s, steps, t)
    ensures Coherent(t) && forall id | id in t.launchers :: EffectiveRoots(t, id).Some?
    decreases |steps|
  {
    hide Next, EffectiveRoots, InheritsNothing, Contained, PrincipalsUnderGlobal, Schema;
    if steps == [] {
      assert Schema(t) && Contained(t);
      AlwaysAvailableIff(t);
    } else {
      StepKeepsCoherence(s, steps[0]);
      EveryRunIsCoherent(Next(s, steps[0]), steps[1..], t);
    }
  }

  /** Narrowing only an access mode never deletes a stored row. */
  lemma AccessChangeDeletesNothing(s: State, entries: seq<Entry>)
    requires Coherent(s) && |entries| == |s.global| && (Valid(s.global) ==> Valid(entries))
    requires forall i | 0 <= i < |entries| :: entries[i].path == s.global[i].path
    ensures Next(s, SetGlobal(entries)) == s.(global := entries)
  {
    hide Compose, Covered, Rows, Cascade, Valid;
    var g := s.(global := entries);
    forall q ensures Covered(entries, q) <==> Covered(s.global, q) { SamePathsCover(entries, s.global, q); }
    forall l, e | l in g.launchers && g.launchers[l].scope == Restricted && e in g.launchers[l].roots
      ensures Covered(Ceiling(g, g.launchers[l].owner), e.path)
    {
      var stored := s.principals[s.launchers[l].owner];
      assert Covered(Ceiling(s, s.launchers[l].owner), e.path);
      CeilingCovers(s.global, stored, e.path);
      CeilingCovers(entries, stored, e.path);
    }
    CascadeFixed(g, true, 0);
  }
}
