// Policies the daemon can hold at which narrowing and derivation fail without the
// ordering hypothesis: every list here is a composition, and the workspace lies
// properly inside one of its roots, as Session creation demands (session.go:285-297).
module CeilingWitness {
  import opened Order
  import opened Paths
  import opened Policy
  import opened Normalization
  import opened CanonicalForm
  import opened Composition
  import opened SessionPolicy
  import opened OrderingWitness

  const OUTSIDE: Path := "/a-y"

  /** A list that keeps all its entries: "/a-y" takes "/a" off the stack as well. */
  function Ceiling(root: Access, protected: Access, inner: Access): seq<Entry> {
    [Entry(ROOT, root), Entry(OUTSIDE, root), Entry(PROTECTED, protected), Entry(SIBLING, root), Entry(INNER, inner)]
  }

  predicate Known(a: Access) { !a.Unknown? }

  // ------------------------------------------------- the list is composed

  lemma PathsAreCanonical()
    ensures Canonical(ROOT) && Canonical(OUTSIDE) && Canonical(WORKSPACE)
    ensures Canonical(PROTECTED) && Canonical(SIBLING) && Canonical(INNER)
  {
    hide Canonical, Split;
    assert ROOT == "/" + "a" && OUTSIDE == "/" + "a-y" && WORKSPACE == "/" + "a/w";
    assert PROTECTED == "/" + "a/w/b" && SIBLING == "/" + "a/w/b-x" && INNER == "/" + "a/w/b/c";
    SplitWord("a", '/'); SplitWord("a-y", '/'); SplitWord("w", '/');
    SplitWord("b", '/'); SplitWord("b-x", '/'); SplitWord("c", '/');
    assert "a" + ['/'] + "w" == "a/w" && "a/w" + ['/'] + "b" == "a/w/b" && "a/w" + ['/'] + "b-x" == "a/w/b-x";
    assert "a/w/b" + ['/'] + "c" == "a/w/b/c";
    SplitConcat("a", "w", '/'); SplitConcat("a/w", "b", '/');
    SplitConcat("a/w", "b-x", '/'); SplitConcat("a/w/b", "c", '/');
    CanonicalText("a", ["a"]);
    CanonicalText("a-y", ["a-y"]);
    CanonicalText("a/w", ["a", "w"]);
    CanonicalText("a/w/b", ["a", "w", "b"]);
    CanonicalText("a/w/b-x", ["a", "w", "b-x"]);
    CanonicalText("a/w/b/c", ["a", "w", "b", "c"]);
  }

  lemma CanonicalText(text: string, words: seq<string>)
    requires text != "" && Split(text, '/') == words && forall w | w in words :: w != "" && w != "." && w != ".."
    ensures Canonical("/" + text)
  {
    hide Split;
    assert ("/" + text)[1..] == text;
  }

  lemma CeilingSorted(root: Access, protected: Access, inner: Access)
    ensures var s := Ceiling(root, protected, inner);
            StrictlyAscending(PathKey, s) && AncestorsFirst(s) && DistinctPaths(s)
  {
    hide Within, LexLess, AncestorsFirst, DistinctPaths;
    var t := Interrupted(ROOT, root, protected, root, inner);
    InterruptedSorted(t);
    assert t[0].path == ROOT && t[1].path == PROTECTED && t[2].path == SIBLING && t[3].path == INNER;
    assert ROOT == OUTSIDE[..2] && Codes(ROOT) == Codes(OUTSIDE)[..2];
    LexPrefix(Codes(ROOT), Codes(OUTSIDE));
    assert OUTSIDE[..2] == PROTECTED[..2] && OUTSIDE[..2] == SIBLING[..2] && OUTSIDE[..2] == INNER[..2];
    CompareAt(OUTSIDE, PROTECTED, 2); CompareAt(OUTSIDE, SIBLING, 2); CompareAt(OUTSIDE, INNER, 2);
    SortedAncestorsFirst(Ceiling(root, protected, inner));
  }

  lemma OutsideContains()
    ensures !Within(ROOT, OUTSIDE) && !Within(OUTSIDE, PROTECTED) && !Within(PROTECTED, OUTSIDE)
    ensures StrictlyWithin(ROOT, WORKSPACE) && StrictlyWithin(ROOT, PROTECTED) && !Within(WORKSPACE, OUTSIDE)
  {
    assert Below(ROOT) == "/a/" && Below(WORKSPACE) == "/a/w/" && OUTSIDE[2] == '-' && |OUTSIDE| == |WORKSPACE| == 4;
    assert WORKSPACE[2] == '/' && PROTECTED[2] == '/' && WORKSPACE[..3] == "/a/" && PROTECTED[..3] == "/a/";
  }

  /** No entry of the list contains the next one, so none sees an ancestor. */
  lemma CeilingIsComposed(root: Access, protected: Access, inner: Access)
    requires Known(root) && Known(protected) && Known(inner)
    ensures var s := Ceiling(root, protected, inner); Valid(s) && Compose(s, s) == s
  {
    hide Within, LexLess, Canonical, Compose, Normalize, StrictlyAscending, NearestVisible;
    var s := Ceiling(root, protected, inner);
    CeilingSorted(root, protected, inner);
    PathsAreCanonical();
    Containment(ROOT);
    OutsideContains();
    forall k: nat, x: nat | x < k < |s| ensures !Visible(s, x, k) {
      assert !Within(s[x].path, s[x + 1].path);
    }
    forall k | 0 <= k < |s| ensures !Repeats(s, k) { RepeatsNeedsAncestor(s, k); }
    NormalizeFixedIff(s);
    ComposeSelf(s);
  }

  lemma CeilingLookups(root: Access, protected: Access, inner: Access)
    ensures var s := Ceiling(root, protected, inner);
            && Lookup(s, ROOT) == Some(root) && Lookup(s, WORKSPACE) == Some(root) &&
               Lookup(s, PROTECTED) == Some(protected)
            && Lookup(s, SIBLING) == Some(root) && Lookup(s, INNER) == Some(inner)
  {
    hide Lookup, Within;
    var s := Ceiling(root, protected, inner);
    CeilingSorted(root, protected, inner);
    LookupOwnPath(s, s[0]);
    LookupOwnPath(s, s[2]);
    LookupOwnPath(s, s[3]);
    LookupOwnPath(s, s[4]);
    RootGovernsWorkspace(root, protected, inner);
    LookupGoverned(s, s[0], WORKSPACE);
  }

  lemma RootGovernsWorkspace(root: Access, protected: Access, inner: Access)
    ensures var s := Ceiling(root, protected, inner); Governs(s, s[0], WORKSPACE)
  {
    var s := Ceiling(root, protected, inner);
    OutsideContains();
    OwnWithin(ROOT);
    assert Below(OUTSIDE) == "/a-y/" && WORKSPACE[2] == '/' && Below(OUTSIDE)[2] == '-';
    assert !Within(OUTSIDE, WORKSPACE);
    forall d | d in s && Within(d.path, WORKSPACE) ensures d.path == ROOT { assert |d.path| <= |WORKSPACE|; }
  }

  // ----------------------------------------------------------- narrowing

  function Request(): seq<Entry> { [Entry(ROOT, ReadOnly), Entry(PROTECTED, ReadWrite)] }

  /** Narrowing need not keep to the ceiling: every requested root narrows it, and yet
      a region it protects comes out read-write. */
  lemma NarrowingCanLeaveTheCeiling()
    ensures var ceiling := Ceiling(ReadOnly, ReadWrite, ReadOnly);
            && Compose(ceiling, ceiling) == ceiling
            && Entry(ROOT, ReadOnly) in ceiling && StrictlyWithin(ROOT, PROTECTED)
            && Grantable(ceiling, PROTECTED, Request())
            && Lookup(ceiling, INNER) == Some(ReadOnly)
            && Lookup(Compose(ceiling, RequestedScope(ceiling, PROTECTED, Request())), INNER) == Some(ReadWrite)
  {
    hide Within, Visible, NearestVisible, Normalize, Lookup, Contiguous, Repeats, Canonical, Compose, RequestedScope,
         CandidateList, Request, Interrupted;
    var ceiling := Ceiling(ReadOnly, ReadWrite, ReadOnly);
    assert ceiling[0] == Entry(ROOT, ReadOnly);
    var scope := RequestedScope(ceiling, PROTECTED, Request());
    CeilingIsComposed(ReadOnly, ReadWrite, ReadOnly);
    CeilingLookups(ReadOnly, ReadWrite, ReadOnly);
    OutsideContains();
    RequestGrantable(ceiling);
    RequestScope(ceiling);
    ScopeLookups(scope);
    ComposedCandidates(ceiling, scope);
    NormalizationCanChangeAccess(ROOT, ReadOnly, ReadWrite, ReadOnly);
    ComposeUnfolds(ceiling, scope);
  }

  lemma RequestGrantable(ceiling: seq<Entry>)
    requires ceiling == Ceiling(ReadOnly, ReadWrite, ReadOnly)
    ensures Grantable(ceiling, PROTECTED, Request())
  {
    hide Lookup, Canonical, Covered, Ceiling;
    CeilingIsComposed(ReadOnly, ReadWrite, ReadOnly);
    CeilingLookups(ReadOnly, ReadWrite, ReadOnly);
    PathsAreCanonical();
    LookupNone(ceiling, ROOT);
    LookupNone(ceiling, PROTECTED);
    assert ROOT != PROTECTED by { assert |ROOT| == 2 && |PROTECTED| == 6; }
    assert Valid(Request());
  }

  /** The request names the workspace, so the scope is the request. */
  lemma RequestScope(ceiling: seq<Entry>)
    requires ceiling == Ceiling(ReadOnly, ReadWrite, ReadOnly)
    ensures var scope := RequestedScope(ceiling, PROTECTED, Request());
            && Valid(scope) && forall e ::
               e in scope <==> e == Entry(ROOT, ReadOnly) || e == Entry(PROTECTED, ReadWrite)
  {
    hide Lookup, Canonical, Covered, Ceiling, RequestedScope, Grantable;
    RequestGrantable(ceiling);
    GrantableParts(ceiling, PROTECTED, Request());
    ScopeElements(ceiling, PROTECTED, Request());
    assert Request()[1] in Request();
  }

  lemma ScopeLookups(scope: seq<Entry>)
    requires DistinctPaths(scope) && forall e ::
             e in scope <==> e == Entry(ROOT, ReadOnly) || e == Entry(PROTECTED, ReadWrite)
    ensures Lookup(scope, ROOT) == Some(ReadOnly) && Lookup(scope, PROTECTED) == Some(ReadWrite)
    ensures Lookup(scope, SIBLING) == Some(ReadOnly) && Lookup(scope, INNER) == Some(ReadWrite)
    ensures Lookup(scope, OUTSIDE).None?
  {
    hide Lookup, Within;
    Containment(ROOT);
    OutsideContains();
    var outer, inner := Entry(ROOT, ReadOnly), Entry(PROTECTED, ReadWrite);
    LookupOwnPath(scope, outer);
    LookupOwnPath(scope, inner);
    OwnWithin(ROOT);
    OwnWithin(PROTECTED);
    LookupGoverned(scope, outer, SIBLING);
    LookupGoverned(scope, inner, INNER);
    LookupNone(scope, OUTSIDE);
  }

  /** The candidates of that request are an interrupted list. */
  lemma ComposedCandidates(ceiling: seq<Entry>, scope: seq<Entry>)
    requires ceiling == Ceiling(ReadOnly, ReadWrite, ReadOnly)
    requires forall e :: e in scope <==> e == Entry(ROOT, ReadOnly) || e == Entry(PROTECTED, ReadWrite)
    requires Lookup(scope, ROOT) == Some(ReadOnly) && Lookup(scope, PROTECTED) == Some(ReadWrite)
    requires Lookup(scope, SIBLING) == Some(ReadOnly) && Lookup(scope, INNER) == Some(ReadWrite)
    requires Lookup(scope, OUTSIDE).None?
    ensures Normalize(CandidateList(ceiling, scope)) ==
            Normalize(Interrupted(ROOT, ReadOnly, ReadWrite, ReadOnly, ReadOnly))
  {
    hide Lookup, CandidateList, Normalize, Ceiling, Candidate, Meet, Interrupted, DistinctPaths;
    var t := Interrupted(ROOT, ReadOnly, ReadWrite, ReadOnly, ReadOnly);
    CandidateListIs(ceiling, scope);
    InterruptedDistinct(ROOT, ReadOnly, ReadWrite, ReadOnly);
    forall e ensures Candidate(ceiling, scope, e) <==> e in t { CandidateIs(ceiling, scope, e); }
    NormalizeOrderFree(CandidateList(ceiling, scope), t);
  }

  lemma InterruptedDistinct(top: Path, root: Access, protected: Access, inner: Access)
    requires Top(top)
    ensures DistinctPaths(Interrupted(top, root, protected, root, inner))
  {
    InterruptedSorted(Interrupted(top, root, protected, root, inner));
  }

  lemma CandidateIs(ceiling: seq<Entry>, scope: seq<Entry>, e: Entry)
    requires ceiling == Ceiling(ReadOnly, ReadWrite, ReadOnly)
    requires forall e :: e in scope <==> e == Entry(ROOT, ReadOnly) || e == Entry(PROTECTED, ReadWrite)
    requires Lookup(scope, ROOT) == Some(ReadOnly) && Lookup(scope, PROTECTED) == Some(ReadWrite)
    requires Lookup(scope, SIBLING) == Some(ReadOnly) && Lookup(scope, INNER) == Some(ReadWrite)
    requires Lookup(scope, OUTSIDE).None?
    ensures Candidate(ceiling, scope, e) <==> e in Interrupted(ROOT, ReadOnly, ReadWrite, ReadOnly, ReadOnly)
  {
    hide Lookup, Ceiling, HasPath;
    CeilingLookups(ReadOnly, ReadWrite, ReadOnly);
    PathsOf(ceiling, scope, e.path);
  }

  lemma PathsOf(ceiling: seq<Entry>, scope: seq<Entry>, p: Path)
    requires ceiling == Ceiling(ReadOnly, ReadWrite, ReadOnly)
    requires forall e :: e in scope <==> e == Entry(ROOT, ReadOnly) || e == Entry(PROTECTED, ReadWrite)
    ensures HasPath(ceiling, p) || HasPath(scope, p) <==>
            p == ROOT || p == OUTSIDE || p == PROTECTED || p == SIBLING || p == INNER
  {
    var s := ceiling;
    assert s[0] in s && s[1] in s && s[2] in s && s[3] in s && s[4] in s;
  }

  lemma ComposeUnfolds(a: seq<Entry>, b: seq<Entry>)
    requires Valid(a) && Valid(b)
    ensures Compose(a, b) == Normalize(CandidateList(a, b))
  {
  }

  // ---------------------------------------------------------- derivation

  /** Derivation need not restrict the policy exactly: the innermost root has the outer
      root's access in the policy and the protected root's in the snapshot. */
  lemma DerivationCanChangeAccess(root: Access, protected: Access)
    requires Known(root) && Known(protected) && root != protected
    ensures var policy := Ceiling(root, protected, root);
            && Compose(policy, policy) == policy && StrictlyWithin(ROOT, WORKSPACE) && Entry(ROOT, root) in policy
            && Lookup(policy, INNER) == Some(root)
            && Lookup(Normalize(Derived(policy, WORKSPACE)), INNER) == Some(protected)
  {
    hide Within, Normalize, Lookup, Derived, Compose, Interrupted, Valid;
    var policy := Ceiling(root, protected, root);
    assert policy[0] == Entry(ROOT, root);
    CeilingIsComposed(root, protected, root);
    CeilingLookups(root, protected, root);
    OutsideContains();
    DerivedIsInterrupted(root, protected, root);
    NormalizationCanChangeAccess(WORKSPACE, root, protected, root);
  }

  /** Nor need it succeed: the constructor refuses what one pass leaves. */
  lemma DerivationCanFail(root: Access, protected: Access)
    requires Known(root) && Known(protected) && root != protected
    ensures var policy := Ceiling(root, protected, protected);
            && Compose(policy, policy) == policy && StrictlyWithin(ROOT, WORKSPACE) && Entry(ROOT, root) in policy
            && !Issuable(WORKSPACE, Normalize(Derived(policy, WORKSPACE)))
  {
    hide Within, Normalize, Lookup, Derived, Compose, Interrupted, Valid, Issuable;
    var policy := Ceiling(root, protected, protected);
    assert policy[0] == Entry(ROOT, root);
    CeilingIsComposed(root, protected, protected);
    OutsideContains();
    DerivedIsInterrupted(root, protected, protected);
    NormalizationCanNeedASecondPass(WORKSPACE, root, protected);
  }

  lemma DerivedIsInterrupted(root: Access, protected: Access, inner: Access)
    requires Known(root) && Known(protected) && Known(inner)
    ensures Normalize(Derived(Ceiling(root, protected, inner), WORKSPACE)) ==
            Normalize(Interrupted(WORKSPACE, root, protected, root, inner))
  {
    hide Within, StrictlyWithin, Normalize, Lookup, Derived, DistinctPaths, Covered;
    var policy, t := Ceiling(root, protected, inner), Interrupted(WORKSPACE, root, protected, root, inner);
    CeilingSorted(root, protected, inner);
    CeilingLookups(root, protected, inner);
    LookupNone(policy, WORKSPACE);
    DerivedElements(policy, WORKSPACE);
    InterruptedDistinct(WORKSPACE, root, protected, inner);
    InsideWorkspace();
    assert t[0] in t && t[1] in t && t[2] in t && t[3] in t;
    assert policy[2] in policy && policy[3] in policy && policy[4] in policy;
    NormalizeOrderFree(Derived(policy, WORKSPACE), t);
  }

  lemma InsideWorkspace()
    ensures StrictlyWithin(WORKSPACE, PROTECTED) && StrictlyWithin(WORKSPACE, SIBLING) &&
            StrictlyWithin(WORKSPACE, INNER)
    ensures !StrictlyWithin(WORKSPACE, ROOT) && !StrictlyWithin(WORKSPACE, OUTSIDE)
  {
    Containment(WORKSPACE);
    OutsideContains();
    assert |ROOT| == 2 && |WORKSPACE| == 4;
  }
}
