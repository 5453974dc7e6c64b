// The Session filesystem policy: issuance-time narrowing, the immutable
// snapshot, its derivation and its queries (allowed_root_policy.go:205-443).
module SessionPolicy {
  import opened Order
  import opened Paths
  import opened Policy
  import opened Normalization
  import opened CanonicalForm
  import opened Composition
  import opened SecondPass

  // ------------------------------------------------------- narrowing

  datatype Refusal =
    | EmptyRequest
    | MalformedRequest(err: EntryError)
    | OutsidePolicy(path: Path)
    | WiderThanPolicy(path: Path)
    | WorkspaceOutsidePolicy
    | NothingGranted

  datatype Narrowed = Granted(entries: seq<Entry>) | Refused(why: Refusal)

  /** A requested root stays within the ceiling's authority and mode. */
  ghost predicate Narrows(ceiling: seq<Entry>, e: Entry) {
    Covered(ceiling, e.path) && !(e.access == ReadWrite && Lookup(ceiling, e.path) == Some(ReadOnly))
  }

  ghost predicate Grantable(ceiling: seq<Entry>, workspace: Path, requested: seq<Entry>) {
    && Valid(ceiling) && Valid(requested) && requested != [] && Canonical(workspace) && Covered(ceiling, workspace)
    && forall e | e in requested :: Narrows(ceiling, e)
  }

  ghost function ExplicitAt(requested: seq<Entry>, w: Path, implicit: Entry): Entry {
    if requested == [] then implicit
    else
      var n := |requested| - 1;
      if requested[n].path == w then requested[n] else ExplicitAt(requested[..n], w, implicit)
  }

  ghost function Elsewhere(es: seq<Entry>, w: Path): seq<Entry> {
    if es == [] then []
    else
      var n := |es| - 1;
      if es[n].path == w then Elsewhere(es[..n], w) else Elsewhere(es[..n], w) + [es[n]]
  }

  /** The requested scope: the implicit workspace grant, replaced by an explicit root
      at the workspace, and every other requested root. */
  ghost function RequestedScope(ceiling: seq<Entry>, workspace: Path, requested: seq<Entry>): seq<Entry> {
    var at := Lookup(ceiling, workspace);
    if at.None? then []
    else [ExplicitAt(requested, workspace, Entry(workspace, at.value))] + Elsewhere(requested, workspace)
  }

  ghost predicate Justified(why: Refusal, ceiling: seq<Entry>, workspace: Path, requested: seq<Entry>) {
    match why
    case EmptyRequest => requested == []
    case MalformedRequest(_) => !Valid(requested)
    case OutsidePolicy(p) => HasPath(requested, p) && !Covered(ceiling, p)
    case WiderThanPolicy(p) => Entry(p, ReadWrite) in requested && Lookup(ceiling, p) == Some(ReadOnly)
    case WorkspaceOutsidePolicy => !Covered(ceiling, workspace)
    case NothingGranted => !Valid(ceiling) || !Canonical(workspace)
  }

  /** narrowSessionFilesystemPolicy. */
  method NarrowSession(ceiling: seq<Entry>, workspace: Path, requested: seq<Entry>) returns (res: Narrowed)
    ensures res.Granted? <==> Grantable(ceiling, workspace, requested)
    ensures res.Granted? ==> res.entries == Compose(ceiling, RequestedScope(ceiling, workspace, requested))
    ensures res.Refused? ==> Justified(res.why, ceiling, workspace, requested)
  {
    hide Lookup, Compose, Covered, Canonical, HasPath, RequestedScope, ExplicitAt, Elsewhere, DistinctPaths;
    if |requested| == 0 { return Refused(EmptyRequest); }
    var err := ValidateCanonical(requested);
    if err.Some? { return Refused(MalformedRequest(err.value)); }
    for i := 0 to |requested|
      invariant forall k | 0 <= k < i :: Narrows(ceiling, requested[k])
    {
      var e := requested[i];
      MembersHavePath(requested);
      var up := LookupAccess(ceiling, e.path);
      if up.None? { return Refused(OutsidePolicy(e.path)); }
      if e.access == ReadWrite && up.value == ReadOnly { return Refused(WiderThanPolicy(e.path)); }
    }
    var implicit := LookupAccess(ceiling, workspace);
    if implicit.None? { return Refused(WorkspaceOutsidePolicy); }
    var scope := AskedScope(workspace, implicit.value, requested);
    ScopeUnfolds(ceiling, workspace, requested);
    ScopeElements(ceiling, workspace, requested);
    ComposedNonEmpty(ceiling, workspace, scope);
    var composed := ComposeScopes(ceiling, scope);
    if |composed| == 0 { return Refused(NothingGranted); }
    return Granted(composed);
  }

  lemma ScopeUnfolds(ceiling: seq<Entry>, workspace: Path, requested: seq<Entry>)
    requires Lookup(ceiling, workspace).Some?
    ensures var implicit := Entry(workspace, Lookup(ceiling, workspace).value);
            RequestedScope(ceiling, workspace, requested) ==
            [ExplicitAt(requested, workspace, implicit)] + Elsewhere(requested, workspace)
  {
    hide Lookup, ExplicitAt, Elsewhere;
  }

  method AskedScope(workspace: Path, implicit: Access, requested: seq<Entry>) returns (scope: seq<Entry>)
    ensures scope == [ExplicitAt(requested, workspace, Entry(workspace, implicit))] + Elsewhere(requested, workspace)
  {
    scope := [Entry(workspace, implicit)];
    for i := 0 to |requested|
      invariant scope == [ExplicitAt(requested[..i], workspace, Entry(workspace, implicit))] +
                Elsewhere(requested[..i], workspace)
    {
      var e := requested[i];
      assert requested[..i + 1][..i] == requested[..i];
      if e.path == workspace {
        scope := scope[0 := e];
        continue;
      }
      scope := scope + [e];
    }
    assert requested[..|requested|] == requested;
  }

  /** The scope holds every requested root, and the implicit grant unless a root replaces it. */
  lemma ScopeElements(ceiling: seq<Entry>, workspace: Path, requested: seq<Entry>)
    requires Covered(ceiling, workspace) && Valid(requested)
    ensures var scope := RequestedScope(ceiling, workspace, requested);
            && DistinctPaths(scope) && HasPath(scope, workspace)
            && (forall e :: e in scope <==> e in requested || ImplicitGrant(ceiling, workspace, requested, e))
            && (Valid(ceiling) ==> (Valid(scope) <==> Canonical(workspace)))
  {
    hide Lookup, Covered, Canonical;
    LookupNone(ceiling, workspace);
    var scope := RequestedScope(ceiling, workspace, requested);
    var implicit := Entry(workspace, Lookup(ceiling, workspace).value);
    ExplicitElement(requested, workspace, implicit);
    ElsewhereElements(requested, workspace);
    assert scope[0] in scope;
    forall e ensures e in scope <==> e in requested || ImplicitGrant(ceiling, workspace, requested, e) {
      if e in requested && e.path == workspace { SamePathSameEntry(requested, e, scope[0]); }
    }
    if Valid(ceiling) {
      var g := LookupIsGoverned(ceiling, workspace);
    }
  }

  ghost predicate ImplicitGrant(ceiling: seq<Entry>, workspace: Path, requested: seq<Entry>, e: Entry) {
    e.path == workspace && !HasPath(requested, workspace) && Lookup(ceiling, workspace) == Some(e.access)
  }

  lemma {:induction false} ExplicitElement(requested: seq<Entry>, w: Path, implicit: Entry)
    requires implicit.path == w
    ensures var e := ExplicitAt(requested, w, implicit);
            e.path == w && if HasPath(requested, w) then e in requested else e == implicit
  {
    if requested != [] {
      var n := |requested| - 1;
      ExplicitElement(requested[..n], w, implicit);
      assert requested == requested[..n] + [requested[n]];
    }
  }

  lemma {:induction false} ElsewhereElements(es: seq<Entry>, w: Path)
    requires DistinctPaths(es)
    ensures DistinctPaths(Elsewhere(es, w)) && forall e :: e in Elsewhere(es, w) <==> e in es && e.path != w
  {
    if es != [] {
      var n := |es| - 1;
      ElsewhereElements(es[..n], w);
      assert es == es[..n] + [es[n]];
      var r := Elsewhere(es[..n], w);
      forall i | 0 <= i < |r| ensures r[i].path != es[n].path {
        assert r[i] in es[..n];
      }
    }
  }

  lemma SamePathSameEntry(es: seq<Entry>, d: Entry, e: Entry)
    requires DistinctPaths(es) && d in es && e in es && d.path == e.path
    ensures d == e
  {
    var i :| 0 <= i < |es| && es[i] == d;
    var j :| 0 <= j < |es| && es[j] == e;
    assert i == j;
  }

  /** The workspace survives composition unless an input is not canonical. */
  lemma ComposedNonEmpty(ceiling: seq<Entry>, workspace: Path, scope: seq<Entry>)
    requires Covered(ceiling, workspace) && HasPath(scope, workspace)
    ensures Compose(ceiling, scope) != [] <==> Valid(ceiling) && Valid(scope)
  {
    hide Within, Lookup, Compose;
    if Valid(ceiling) && Valid(scope) {
      var e :| e in scope && e.path == workspace;
      OwnWithin(workspace);
      assert Covered(scope, workspace);
      ComposeCovers(ceiling, scope, workspace);
    } else {
      ComposeInvalid(ceiling, scope);
    }
  }

  lemma ComposeInvalid(a: seq<Entry>, b: seq<Entry>)
    requires !Valid(a) || !Valid(b)
    ensures Compose(a, b) == []
  {
  }

  ghost predicate AtMost(lower: Option<Access>, upper: Option<Access>) {
    lower.Some? ==> upper.Some? && (upper.value == ReadOnly ==> lower.value == ReadOnly)
  }

  /** Issuance only narrows, grants every requested root exactly as requested,
      authorizes the workspace, and reaches no path outside the requested scope. */
  lemma NarrowingIsExact(ceiling: seq<Entry>, workspace: Path, requested: seq<Entry>)
    requires Grantable(ceiling, workspace, requested)
    requires Contiguous(ceiling + RequestedScope(ceiling, workspace, requested))
    ensures var scope := RequestedScope(ceiling, workspace, requested);
            var granted := Compose(ceiling, scope);
            && (forall p :: AtMost(Lookup(granted, p), Lookup(ceiling, p)))
            && (forall e | e in requested :: Lookup(granted, e.path) == Some(e.access))
            && (!HasPath(requested, workspace) ==> Lookup(granted, workspace) == Lookup(ceiling, workspace))
            && (forall p :: Lookup(granted, p).Some? <==> Covered(ceiling, p) && Covered(scope, p))
            && Issuable(workspace, granted)
  {
    hide Lookup, Compose, Covered, Contiguous, HasPath, Canonical, RequestedScope;
    var scope := RequestedScope(ceiling, workspace, requested);
    ScopeElements(ceiling, workspace, requested);
    var granted, all := Compose(ceiling, scope), ceiling + scope;
    MembersHavePath(all);
    ComposeIsMeet(ceiling, scope, all);
    forall p ensures AtMost(Lookup(granted, p), Lookup(ceiling, p))
      ensures Lookup(granted, p).Some? <==> Covered(ceiling, p) && Covered(scope, p)
    {
      LookupNone(ceiling, p); LookupNone(scope, p);
    }
    forall e | e in scope ensures Lookup(granted, e.path) == Some(e.access) {
      GrantedAsAsked(ceiling, workspace, requested, scope, e);
    }
    LookupNone(ceiling, workspace);
    if !HasPath(requested, workspace) {
      assert Entry(workspace, Lookup(ceiling, workspace).value) in scope;
    }
    PathIsCovered(scope, workspace);
    ComposedNonEmpty(ceiling, workspace, scope);
    GrantedIsIssuable(ceiling, workspace, scope, all);
  }

  /** A composition narrows its ceiling exactly when no candidate under a read-only
      ceiling is dropped for a farther ancestor while a nearer one stays read-write. */
  lemma ComposeNarrowsIff(ceiling: seq<Entry>, scope: seq<Entry>)
    requires Valid(ceiling) && Valid(scope)
    ensures (forall p :: AtMost(Lookup(Compose(ceiling, scope), p), Lookup(ceiling, p))) <==>
            forall e | e in CandidateList(ceiling, scope) && Overruled(CandidateList(ceiling, scope), e) ::
              Lookup(ceiling, e.path) != Some(ReadOnly)
  {
    hide Lookup, Covered, HasPath, Compose, CandidateList, Normalize, Overruled, MeetLookup, AtMost;
    var c := CandidateList(ceiling, scope);
    CandidateListIs(ceiling, scope);
    forall e | e in c
      ensures AtMost(Lookup(Compose(ceiling, scope), e.path), Lookup(ceiling, e.path)) <==>
              !(Overruled(c, e) && Lookup(ceiling, e.path) == Some(ReadOnly))
    {
      NarrowsAtIff(ceiling, scope, e);
    }
    if forall e | e in c :: AtMost(Lookup(Compose(ceiling, scope), e.path), Lookup(ceiling, e.path)) {
      forall p ensures AtMost(Lookup(Compose(ceiling, scope), p), Lookup(ceiling, p)) {
        NarrowsBelowCandidate(ceiling, scope, p);
      }
    }
  }

  lemma NarrowsAtIff(ceiling: seq<Entry>, scope: seq<Entry>, e: Entry)
    requires Valid(ceiling) && Valid(scope) && e in CandidateList(ceiling, scope)
    ensures AtMost(Lookup(Compose(ceiling, scope), e.path), Lookup(ceiling, e.path)) <==>
            !(Overruled(CandidateList(ceiling, scope), e) && Lookup(ceiling, e.path) == Some(ReadOnly))
  {
    hide Lookup, Covered, HasPath, CandidateList, Normalize, Overruled;
    var c := CandidateList(ceiling, scope);
    CandidateListIs(ceiling, scope);
    KeepsAtIff(c, e);
    assert Candidate(ceiling, scope, e);
    KnownAccess(ceiling, e.path);
    KnownAccess(scope, e.path);
    OwnWithin(e.path);
    CandidateCovered(ceiling, scope, e, e.path);
    ComposeCovers(ceiling, scope, e.path);
    ComposeValid(ceiling, scope);
    KnownAccess(Compose(ceiling, scope), e.path);
  }

  lemma KnownAccess(es: seq<Entry>, p: Path)
    requires Valid(es)
    ensures Lookup(es, p).Some? <==> Covered(es, p)
    ensures Lookup(es, p).Some? ==> !Lookup(es, p).value.Unknown?
  {
    hide Lookup, Covered, Canonical;
    LookupNone(es, p);
    if Covered(es, p) { var g := LookupIsGoverned(es, p); }
  }

  /** Below the innermost candidate no lookup changes. */
  lemma NarrowsBelowCandidate(ceiling: seq<Entry>, scope: seq<Entry>, p: Path)
    requires Valid(ceiling) && Valid(scope)
    requires forall e | e in CandidateList(ceiling, scope) ::
               AtMost(Lookup(Compose(ceiling, scope), e.path), Lookup(ceiling, e.path))
    ensures AtMost(Lookup(Compose(ceiling, scope), p), Lookup(ceiling, p))
  {
    hide Lookup, Covered, HasPath, Compose, CandidateList, Normalize, MeetLookup, Within;
    var granted := Compose(ceiling, scope);
    LookupNone(granted, p);
    ComposeCovers(ceiling, scope, p);
    ComposeValid(ceiling, scope);
    CandidateListIs(ceiling, scope);
    if Covered(granted, p) {
      var e := CandidateOf(ceiling, scope, p);
      assert e in CandidateList(ceiling, scope);
      forall d | d in granted ensures HasPath(ceiling, d.path) || HasPath(scope, d.path) {
        HasPathConcat(ceiling, scope, d.path);
      }
      MembersHavePath(ceiling);
      UnchangedBelow(granted, e.path, p);
      UnchangedBelow(ceiling, e.path, p);
    }
  }

  lemma UnchangedBelow(es: seq<Entry>, q: Path, p: Path)
    requires DistinctPaths(es) && Within(q, p) && forall d | d in es && Within(d.path, p) :: Within(d.path, q)
    ensures Lookup(es, p) == Lookup(es, q)
  {
    hide Lookup, Within, Covered;
    LookupNone(es, p); LookupNone(es, q);
    if Covered(es, p) {
      var g := LookupIsGoverned(es, p);
      GovernsBetween(es, g, q, p);
      LookupGoverned(es, g, q);
    } else if Covered(es, q) {
      CoveredBelow(es, q, p);
    }
  }

  lemma CoveredBelow(es: seq<Entry>, q: Path, p: Path)
    requires Within(q, p) && Covered(es, q)
    ensures Covered(es, p)
  {
    hide Within;
    var e :| e in es && Within(e.path, q);
    WithinTransitive(e.path, q, p);
  }

  /** Without the hypothesis: exactly when the grant narrows the ceiling, when it gives
      a root of the requested scope its access, when it is the meet of ceiling and
      request at every path, and when the constructor accepts it. */
  lemma NarrowingExactIff(ceiling: seq<Entry>, workspace: Path, requested: seq<Entry>)
    requires Grantable(ceiling, workspace, requested)
    ensures var scope := RequestedScope(ceiling, workspace, requested);
            var candidates := CandidateList(ceiling, scope);
            var granted := Compose(ceiling, scope);
            && ((forall p :: AtMost(Lookup(granted, p), Lookup(ceiling, p))) <==>
                forall e | e in candidates && Overruled(candidates, e) :: Lookup(ceiling, e.path) != Some(ReadOnly))
            && (forall e | e in scope :: Lookup(granted, e.path) == Some(e.access) <==> !Overruled(candidates, e))
            && ((forall p :: Lookup(granted, p) == MeetLookup(Lookup(ceiling, p), Lookup(scope, p))) <==>
                NothingMasked(candidates))
            && (Issuable(workspace, granted) <==> NothingUncovered(candidates))
  {
    hide Lookup, Covered, HasPath, Canonical, RequestedScope, CandidateList, Normalize, NothingMasked, NothingUncovered,
         Overruled, AtMost, Grantable;
    var scope := RequestedScope(ceiling, workspace, requested);
    GrantableParts(ceiling, workspace, requested);
    ScopeElements(ceiling, workspace, requested);
    PathIsCovered(scope, workspace);
    ComposeNarrowsIff(ceiling, scope);
    ComposeIsMeetIff(ceiling, scope);
    ComposeCovers(ceiling, scope, workspace);
    ComposeValid(ceiling, scope);
    CoveredNonEmpty(Compose(ceiling, scope), workspace);
    CandidateListIs(ceiling, scope);
    NormalizeIdempotentIff(CandidateList(ceiling, scope));
    forall e | e in scope
      ensures Lookup(Compose(ceiling, scope), e.path) == Some(e.access) <==>
              !Overruled(CandidateList(ceiling, scope), e)
    {
      GrantedAsAsked(ceiling, workspace, requested, scope, e);
      MembersHavePath(scope);
      assert Candidate(ceiling, scope, e);
      KeepsAtIff(CandidateList(ceiling, scope), e);
    }
  }

  lemma GrantableParts(ceiling: seq<Entry>, workspace: Path, requested: seq<Entry>)
    requires Grantable(ceiling, workspace, requested)
    ensures Valid(ceiling) && Valid(requested) && Canonical(workspace) && Covered(ceiling, workspace)
  {
  }

  lemma CoveredNonEmpty(es: seq<Entry>, p: Path)
    requires Covered(es, p)
    ensures es != []
  {
  }

  lemma PathIsCovered(es: seq<Entry>, p: Path)
    requires HasPath(es, p)
    ensures Covered(es, p)
  {
  }

  lemma GrantedAsAsked(ceiling: seq<Entry>, workspace: Path, requested: seq<Entry>, scope: seq<Entry>, e: Entry)
    requires Grantable(ceiling, workspace, requested) && Valid(scope) && e in scope
    requires e in requested || ImplicitGrant(ceiling, workspace, requested, e)
    ensures MeetLookup(Lookup(ceiling, e.path), Lookup(scope, e.path)) == Some(e.access)
  {
    hide Lookup, Covered;
    LookupOwnPath(scope, e);
    LookupNone(ceiling, e.path);
    if e in requested { assert Narrows(ceiling, e); }
    var g := LookupIsGoverned(ceiling, e.path);
    assert ValidEntry(g) && ValidEntry(e);
  }

  lemma GrantedIsIssuable(ceiling: seq<Entry>, workspace: Path, scope: seq<Entry>, all: seq<Entry>)
    requires Valid(ceiling) && Valid(scope) && Contiguous(all) && Canonical(workspace)
    requires forall e | e in ceiling || e in scope :: HasPath(all, e.path)
    requires Covered(ceiling, workspace) && Covered(scope, workspace) && Compose(ceiling, scope) != []
    ensures Issuable(workspace, Compose(ceiling, scope))
  {
    hide Lookup, Covered, CandidateList, Normalize, HasPath, Contiguous, Canonical;
    ComposeCovers(ceiling, scope, workspace);
    ComposeValid(ceiling, scope);
    CandidateListIs(ceiling, scope);
    CandidatesContiguous(ceiling, scope, all);
    NormalizeIdempotent(CandidateList(ceiling, scope));
  }

  // --------------------------------------------------------- snapshots

  datatype Snapshot = Snapshot(workspace: Path, entries: seq<Entry>)

  /** What the snapshot constructor accepts. */
  ghost predicate Issuable(workspace: Path, entries: seq<Entry>) {
    Valid(entries) && Canonical(workspace) && entries != [] && Covered(entries, workspace) &&
        Normalize(entries) == entries
  }

  /** The accepted entries: strictly sorted, each changing the access of its nearest visible ancestor. */
  lemma IssuableIff(workspace: Path, entries: seq<Entry>)
    ensures Issuable(workspace, entries) <==>
            && Valid(entries) && Canonical(workspace) && entries != [] && Covered(entries, workspace)
            && StrictlyAscending(PathKey, entries) && NothingRepeats(entries)
  {
    hide Normalize, Covered, Canonical, NothingRepeats, StrictlyAscending;
    if Valid(entries) { NormalizeFixedIff(entries); }
  }

  /** newSessionFilesystemSnapshot. */
  method NewSnapshot(workspace: Path, entries: seq<Entry>) returns (s: Option<Snapshot>)
    ensures s == if Issuable(workspace, entries) then Some(Snapshot(workspace, entries)) else None
  {
    var err := ValidateCanonical(entries);
    if err.Some? { return None; }
    if !Canonical(workspace) { return None; }
    if |entries| == 0 { return None; }
    var access := LookupAccess(entries, workspace);
    if access.None? { return None; }
    var canonical := NormalizeEntries(entries);
    if entries != canonical { return None; }
    return Some(Snapshot(workspace, entries));
  }

  // -------------------------------------------------------- derivation

  ghost function Inside(es: seq<Entry>, w: Path): seq<Entry> {
    if es == [] then []
    else
      var n := |es| - 1;
      if StrictlyWithin(w, es[n].path) then Inside(es[..n], w) + [es[n]] else Inside(es[..n], w)
  }

  /** The derived candidates: the workspace with its effective access and every
      policy entry strictly inside it. */
  ghost function Derived(effective: seq<Entry>, workspace: Path): seq<Entry> {
    var at := Lookup(effective, workspace);
    if at.None? then [] else [Entry(workspace, at.value)] + Inside(effective, workspace)
  }

  /** deriveSessionFilesystemSnapshot. */
  method DeriveSnapshot(effective: seq<Entry>, workspace: Path) returns (s: Option<Snapshot>)
    ensures s.Some? <==> Valid(effective) && Canonical(workspace) && Covered(effective, workspace) &&
                         Issuable(workspace, Normalize(Derived(effective, workspace)))
    ensures s.Some? ==> s.value == Snapshot(workspace, Normalize(Derived(effective, workspace)))
  {
    hide Lookup, Normalize, Issuable, StrictlyWithin;
    var err := ValidateCanonical(effective);
    if err.Some? { return None; }
    if !Canonical(workspace) { return None; }
    var mode := LookupAccess(effective, workspace);
    if mode.None? { return None; }
    var candidates := [Entry(workspace, mode.value)];
    for i := 0 to |effective|
      invariant candidates == [Entry(workspace, mode.value)] + Inside(effective[..i], workspace)
    {
      var e := effective[i];
      assert effective[..i + 1][..i] == effective[..i];
      if StrictlyWithin(workspace, e.path) {
        var access := LookupAccess(effective, e.path);
        LookupOwnPath(effective, e);
        if access.None? { assert false; }
        candidates := candidates + [Entry(e.path, access.value)];
      }
    }
    assert effective[..|effective|] == effective;
    var normalized := NormalizeEntries(candidates);
    s := NewSnapshot(workspace, normalized);
  }

  lemma {:induction false} InsideElements(es: seq<Entry>, w: Path)
    requires DistinctPaths(es)
    ensures DistinctPaths(Inside(es, w)) && forall e :: e in Inside(es, w) <==> e in es && StrictlyWithin(w, e.path)
  {
    hide StrictlyWithin;
    if es != [] {
      var n := |es| - 1;
      InsideElements(es[..n], w);
      assert es == es[..n] + [es[n]];
      var r := Inside(es[..n], w);
      forall i | 0 <= i < |r| ensures r[i].path != es[n].path {
        assert r[i] in es[..n];
      }
    }
  }

  /** What the derivation collects. */
  ghost predicate DerivedCandidates(effective: seq<Entry>, workspace: Path, c: seq<Entry>) {
    && DistinctPaths(c)
    && forall e :: e in c <==> ((e.path == workspace && Lookup(effective, workspace) == Some(e.access)) ||
                                (e in effective && StrictlyWithin(workspace, e.path)))
  }

  lemma DerivedElements(effective: seq<Entry>, workspace: Path)
    requires DistinctPaths(effective) && Covered(effective, workspace)
    ensures DerivedCandidates(effective, workspace, Derived(effective, workspace))
  {
    hide Lookup, Covered;
    LookupNone(effective, workspace);
    InsideElements(effective, workspace);
    var r := Inside(effective, workspace);
    forall i | 0 <= i < |r| ensures r[i].path != workspace { assert r[i] in r; }
  }

  /** The candidates restrict the effective policy to the workspace. */
  lemma DerivedLookup(effective: seq<Entry>, workspace: Path, c: seq<Entry>, p: Path)
    requires Valid(effective) && Covered(effective, workspace) && DerivedCandidates(effective, workspace, c)
    ensures Lookup(c, p) == if Within(workspace, p) then Lookup(effective, p) else None
  {
    hide Lookup, Covered;
    LookupNone(c, p); LookupNone(effective, workspace); LookupNone(effective, p);
    var w := LookupIsGoverned(effective, workspace);
    if Within(workspace, p) {
      WithinTransitive(w.path, workspace, p);
      assert Covered(effective, p) by { CoveredBy(effective, w, p); }
      var g := LookupIsGoverned(effective, p);
      DerivedGoverns(effective, workspace, c, p, w, g);
    } else if Covered(c, p) {
      NotCoveredOutside(effective, workspace, c, p);
    }
  }

  lemma CoveredBy(es: seq<Entry>, e: Entry, p: Path)
    requires e in es && Within(e.path, p)
    ensures Covered(es, p)
  {
  }

  lemma NotCoveredOutside(effective: seq<Entry>, workspace: Path, c: seq<Entry>, p: Path)
    requires DerivedCandidates(effective, workspace, c) && Covered(c, p)
    ensures Within(workspace, p)
  {
    hide Lookup;
    var e :| e in c && Within(e.path, p);
    assert Within(workspace, e.path);
    WithinTransitive(workspace, e.path, p);
  }

  lemma DerivedGoverns(effective: seq<Entry>, workspace: Path, c: seq<Entry>, p: Path, w: Entry, g: Entry)
    requires DistinctPaths(effective) && DerivedCandidates(effective, workspace, c) && Within(workspace, p)
    requires Governs(effective, w, workspace) && Lookup(effective, workspace) == Some(w.access)
    requires Governs(effective, g, p) && Lookup(effective, p) == Some(g.access)
    ensures Lookup(c, p) == Some(g.access)
  {
    hide Lookup;
    var own := Entry(workspace, w.access);
    assert own in c;
    WithinChain(workspace, g.path, p);
    if StrictlyWithin(workspace, g.path) {
      forall d | d in c && Within(d.path, p) ensures Within(d.path, g.path) {}
      LookupGoverned(c, g, p);
    } else {
      assert Within(g.path, workspace);
      WithinTransitive(w.path, workspace, p);
      WithinAntisymmetricIf(g.path, w.path);
      SamePathSameEntry(effective, g, w);
      forall d | d in c && Within(d.path, p) ensures Within(d.path, workspace) {
        if d != own && d.path != workspace { WithinTransitive(d.path, g.path, workspace); }
      }
      LookupGoverned(c, own, p);
    }
  }

  lemma WithinAntisymmetricIf(a: Path, b: Path)
    requires Within(a, b) && Within(b, a)
    ensures a == b
  {
    WithinAntisymmetric(a, b);
  }

  /** The derivation restricts the policy faithfully exactly when no candidate is masked. */
  lemma DerivationFaithfulIff(effective: seq<Entry>, workspace: Path)
    requires Valid(effective) && Covered(effective, workspace)
    ensures (forall p :: Lookup(Normalize(Derived(effective, workspace)), p) ==
                         if Within(workspace, p) then Lookup(effective, p) else None)
            <==> NothingMasked(Derived(effective, workspace))
  {
    hide Lookup, Normalize, Covered, NothingMasked, Within, Derived, Canonical;
    var c := Derived(effective, workspace);
    DerivedElements(effective, workspace);
    forall p ensures Lookup(c, p) == if Within(workspace, p) then Lookup(effective, p) else None {
      DerivedLookup(effective, workspace, c, p);
    }
    NormalizeFaithfulIff(c);
  }

  /** In a contiguous order the derived snapshot is always accepted and restricts
      the effective policy to the workspace exactly. */
  lemma DerivationIsExact(effective: seq<Entry>, workspace: Path)
    requires Valid(effective) && Canonical(workspace) && Covered(effective, workspace)
    requires Contiguous([Entry(workspace, ReadWrite)] + effective)
    ensures var entries := Normalize(Derived(effective, workspace));
            && Issuable(workspace, entries)
            && forall p :: Lookup(entries, p) == if Within(workspace, p) then Lookup(effective, p) else None
  {
    hide Lookup, Normalize, Covered, NothingMasked, Contiguous, Canonical, Within, Derived;
    var c := Derived(effective, workspace);
    DerivedElements(effective, workspace);
    DerivedContiguous(effective, workspace, c);
    NormalizeFaithful(c);
    DerivationFaithfulIff(effective, workspace);
    NormalizeIdempotent(c);
    NormalizeSelects(c);
    LookupNone(effective, workspace);
    LookupNone(Normalize(c), workspace);
    OwnWithin(workspace);
    assert Lookup(Normalize(c), workspace) == Lookup(effective, workspace);
  }

  /** The derivation succeeds exactly when one normalization pass is enough. */
  lemma DerivationAcceptedIff(effective: seq<Entry>, workspace: Path)
    requires Valid(effective) && Canonical(workspace) && Covered(effective, workspace)
    ensures Issuable(workspace, Normalize(Derived(effective, workspace))) <==>
            NothingUncovered(Derived(effective, workspace))
  {
    hide Lookup, Normalize, Covered, NothingUncovered, Canonical, Within, Derived;
    var c := Derived(effective, workspace);
    DerivedElements(effective, workspace);
    DerivedValid(effective, workspace, c);
    NormalizeSelects(c);
    NormalizeCovers(c, workspace);
    NormalizeIdempotentIff(c);
  }

  lemma DerivedValid(effective: seq<Entry>, workspace: Path, c: seq<Entry>)
    requires Valid(effective) && Canonical(workspace) && Covered(effective, workspace) &&
             DerivedCandidates(effective, workspace, c)
    ensures Valid(c) && c != [] && Covered(c, workspace)
  {
    hide Lookup, Canonical, StrictlyWithin, Covered;
    LookupNone(effective, workspace);
    var w := LookupIsGoverned(effective, workspace);
    var own := Entry(workspace, w.access);
    assert own in c && ValidEntry(w);
    OwnWithin(workspace);
    CoveredBy(c, own, workspace);
  }

  lemma DerivedContiguous(effective: seq<Entry>, workspace: Path, c: seq<Entry>)
    requires Valid(effective) && Canonical(workspace) && Covered(effective, workspace)
    requires DerivedCandidates(effective, workspace, c) && Contiguous([Entry(workspace, ReadWrite)] + effective)
    ensures Contiguous(c) && c != [] && Valid(c)
  {
    hide Lookup, Covered, Contiguous, Canonical, StrictlyWithin;
    var all := [Entry(workspace, ReadWrite)] + effective;
    LookupNone(effective, workspace);
    var w := LookupIsGoverned(effective, workspace);
    assert Entry(workspace, w.access) in c;
    assert ValidEntry(w);
    assert all[0] in all;
    forall e | e in c ensures exists d :: d in all && d.path == e.path {
      if e in effective { assert e in all; }
    }
    ContiguousSubset(c, all);
  }

  // ----------------------------------------------------------- queries

  /** CanExposeWritable: exactly when every path at or below source is read-write. */
  method CanExposeWritable(s: Snapshot, source: Path) returns (ok: bool)
    requires Issuable(s.workspace, s.entries)
    ensures ok <==> forall p | Within(source, p) :: Lookup(s.entries, p) == Some(ReadWrite)
  {
    hide Lookup, Normalize, Covered, Canonical;
    var access := LookupAccess(s.entries, source);
    OwnWithin(source);
    if access != Some(ReadWrite) { return false; }
    for i := 0 to |s.entries|
      invariant forall k | 0 <= k < i && StrictlyWithin(source, s.entries[k].path) :: s.entries[k].access != ReadOnly
    {
      var e := s.entries[i];
      if StrictlyWithin(source, e.path) && e.access == ReadOnly {
        LookupOwnPath(s.entries, e);
        assert Within(source, e.path);
        return false;
      }
    }
    forall p | Within(source, p) ensures Lookup(s.entries, p) == Some(ReadWrite) {
      WritableBelow(s.entries, source, p);
    }
    return true;
  }

  lemma WritableBelow(es: seq<Entry>, source: Path, p: Path)
    requires Valid(es) && Lookup(es, source) == Some(ReadWrite) && Within(source, p)
    requires forall k | 0 <= k < |es| && StrictlyWithin(source, es[k].path) :: es[k].access != ReadOnly
    ensures Lookup(es, p) == Some(ReadWrite)
  {
    hide Lookup, Canonical;
    var g := LookupIsGoverned(es, source);
    WithinTransitive(g.path, source, p);
    LookupNone(es, p);
    CoveredBy(es, g, p);
    var h := LookupIsGoverned(es, p);
    WithinChain(h.path, source, p);
    if StrictlyWithin(source, h.path) {
      var k :| 0 <= k < |es| && es[k] == h;
    } else {
      WithinAntisymmetricIf(g.path, h.path);
      SamePathSameEntry(es, g, h);
    }
  }

  /** The boundaries kept from the first i entries: pairwise not nested, and
      together containing all of them. */
  ghost predicate Outermost(es: seq<Entry>, i: nat, kept: seq<Path>)
    requires i <= |es|
  {
    && (forall b | b in kept :: exists k | 0 <= k < i :: es[k].path == b)
    && (forall k | 0 <= k < i :: CoveredByTree(kept, es[k].path))
    && (forall x, y | 0 <= x < |kept| && 0 <= y < |kept| && Within(kept[x], kept[y]) :: x == y)
  }

  ghost predicate CoveredByTree(kept: seq<Path>, p: Path) { exists b | b in kept :: Within(b, p) }

  /** sessionMACBoundaries: the outermost authorized trees. */
  method MacBoundaries(s: Snapshot) returns (kept: seq<Path>)
    requires Issuable(s.workspace, s.entries)
    ensures forall p :: CoveredByTree(kept, p) <==> Covered(s.entries, p)
    ensures forall i, j | 0 <= i < |kept| && 0 <= j < |kept| && Within(kept[i], kept[j]) :: i == j
    ensures forall b | b in kept :: HasPath(s.entries, b)
    ensures CoveredByTree(kept, s.workspace)
  {
    hide Normalize, Within, Covered, CoveredByTree, HasPath, Canonical;
    kept := [];
    SnapshotSorted(s);
    for i := 0 to |s.entries|
      invariant Outermost(s.entries, i, kept)
    {
      var e := s.entries[i];
      var covered := false;
      for j := 0 to |kept|
        invariant !covered && forall x | 0 <= x < j :: !Within(kept[x], e.path)
      {
        if Within(kept[j], e.path) {
          covered := true;
          break;
        }
      }
      OutermostStep(s.entries, i, kept, covered);
      if !covered {
        kept := kept + [e.path];
      }
    }
    OutermostCovers(s.entries, kept);
  }

  lemma OutermostStep(es: seq<Entry>, i: nat, kept: seq<Path>, covered: bool)
    requires i < |es| && AncestorsFirst(es) && DistinctPaths(es) && Outermost(es, i, kept)
    requires covered <==> exists x | 0 <= x < |kept| :: Within(kept[x], es[i].path)
    ensures covered ==> Outermost(es, i + 1, kept)
    ensures !covered ==> Outermost(es, i + 1, kept + [es[i].path])
  {
    hide Within;
    if covered {
      var x :| 0 <= x < |kept| && Within(kept[x], es[i].path);
      assert kept[x] in kept;
    } else {
      var after := kept + [es[i].path];
      OwnWithin(es[i].path);
      forall x | 0 <= x < |kept| ensures !Within(es[i].path, kept[x]) {
        assert kept[x] in kept;
        var k :| 0 <= k < i && es[k].path == kept[x];
      }
      assert after[|kept|] in after;
      assert forall b :: b in kept ==> b in after;
    }
  }

  lemma OutermostCovers(es: seq<Entry>, kept: seq<Path>)
    requires Outermost(es, |es|, kept)
    ensures forall p :: CoveredByTree(kept, p) <==> Covered(es, p)
    ensures forall b | b in kept :: HasPath(es, b)
  {
    hide Within;
    forall p ensures CoveredByTree(kept, p) <==> Covered(es, p) {
      if e :| e in es && Within(e.path, p) {
        var k :| 0 <= k < |es| && es[k] == e;
        var b :| b in kept && Within(b, es[k].path);
        WithinTransitive(b, e.path, p);
      }
      if b :| b in kept && Within(b, p) {
        var k :| 0 <= k < |es| && es[k].path == b;
        assert es[k] in es;
      }
    }
    forall b | b in kept ensures HasPath(es, b) {
      var k :| 0 <= k < |es| && es[k].path == b;
      assert es[k] in es;
    }
  }

  lemma SnapshotSorted(s: Snapshot)
    requires Issuable(s.workspace, s.entries)
    ensures AncestorsFirst(s.entries) && DistinctPaths(s.entries) && Covered(s.entries, s.workspace)
  {
    NormalizeFixedIff(s.entries);
    SortedAncestorsFirst(s.entries);
  }
}
