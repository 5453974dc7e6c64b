// The ordering hypothesis is needed. In byte order '-' comes before '/', so
// "/a/w/b-x" sorts between "/a/w/b" and "/a/w/b/c" and takes "/a/w/b" off the
// stack before its descendant arrives.
module OrderingWitness {
  import opened Order
  import opened Paths
  import opened Policy
  import opened Normalization
  import opened CanonicalForm
  import opened Composition
  import opened SecondPass
  import opened SessionPolicy

  const ROOT: Path := "/a"
  const WORKSPACE: Path := "/a/w"
  const PROTECTED: Path := "/a/w/b"
  const SIBLING: Path := "/a/w/b-x"
  const INNER: Path := "/a/w/b/c"

  /** The interrupted subtree lies in the root as well as in the workspace. */
  predicate Top(p: Path) { p == ROOT || p == WORKSPACE }

  function Interrupted(top: Path, root: Access, protected: Access, sibling: Access, inner: Access): seq<Entry> {
    [Entry(top, root), Entry(PROTECTED, protected), Entry(SIBLING, sibling), Entry(INNER, inner)]
  }

  ghost predicate AtPaths(s: seq<Entry>) {
    |s| == 4 && Top(s[0].path) && s[1].path == PROTECTED && s[2].path == SIBLING && s[3].path == INNER
  }

  lemma Containment(top: Path)
    requires Top(top)
    ensures Within(top, PROTECTED) && Within(top, SIBLING) && Within(top, INNER) && Within(PROTECTED, INNER)
    ensures !Within(PROTECTED, SIBLING) && !Within(SIBLING, INNER)
    ensures !Within(PROTECTED, top) && !Within(SIBLING, PROTECTED) && !Within(INNER, PROTECTED)
  {
    assert Below(ROOT) == "/a/" && Below(WORKSPACE) == "/a/w/" && Below(PROTECTED) == "/a/w/b/" &&
           Below(SIBLING) == "/a/w/b-x/";
    assert PROTECTED[..3] == "/a/" && SIBLING[..3] == "/a/" && INNER[..3] == "/a/";
    assert PROTECTED[..5] == "/a/w/" && SIBLING[..5] == "/a/w/" && INNER[..5] == "/a/w/" && INNER[..7] == "/a/w/b/";
    assert SIBLING[6] == '-' && INNER[6] == '/';
  }

  lemma InterruptedSorted(s: seq<Entry>)
    requires AtPaths(s)
    ensures StrictlyAscending(PathKey, s) && SortBy(PathKey, s) == s && DistinctPaths(s) && AncestorsFirst(s)
  {
    hide Within, LexLess;
    var top := s[0].path;
    Containment(top);
    AncestorFirst(top, PROTECTED); AncestorFirst(top, SIBLING);
    AncestorFirst(top, INNER); AncestorFirst(PROTECTED, INNER);
    assert PROTECTED == SIBLING[..6];
    assert Codes(PROTECTED) == Codes(SIBLING)[..6];
    LexPrefix(Codes(PROTECTED), Codes(SIBLING));
    assert SIBLING[..6] == INNER[..6];
    CompareAt(SIBLING, INNER, 6);
    SortedIsFixed(PathKey, s);
    SortedAncestorsFirst(s);
  }

  /** The sibling keeps the protected root from being visible to the inner one. */
  lemma InnerSeesRoot(s: seq<Entry>)
    requires AtPaths(s)
    ensures NearestVisible(s, 0, 3) && NearestVisible(s, 0, 2) && NearestVisible(s, 0, 1) && Parent(s, 1, 3)
    ensures forall x: nat :: !Visible(s, x, 0)
  {
    hide Within;
    Containment(s[0].path);
    assert Visible(s, 0, 1) && Visible(s, 0, 2) && Visible(s, 0, 3);
    assert !Visible(s, 1, 2) && !Visible(s, 1, 3);
    OwnWithin(INNER);
    assert s[3].path == INNER && !Visible(s, 2, 3);
  }

  /** What one pass keeps: whatever differs from the root. */
  lemma InterruptedKept(top: Path, root: Access, protected: Access, sibling: Access, inner: Access)
    requires Top(top)
    ensures var s := Interrupted(top, root, protected, sibling, inner);
            && Repeats(s, 0) == false && (Repeats(s, 1) <==> protected == root)
            && (Repeats(s, 2) <==> sibling == root) && (Repeats(s, 3) <==> inner == root)
            && forall e :: e in Normalize(s) <==> exists k: nat | k < 4 :: RetainedAt(s, e, k)
  {
    hide Within, NearestVisible, Visible, Repeats;
    var s := Interrupted(top, root, protected, sibling, inner);
    InterruptedSorted(s);
    InnerSeesRoot(s);
    RepeatsNeedsAncestor(s, 0);
    RepeatsNearest(s, 1, 0); RepeatsNearest(s, 2, 0); RepeatsNearest(s, 3, 0);
    KeptElements(s, 4);
  }

  /** Without the hypothesis one pass can change an access, in either direction: an
      inner root with the outer root's access is dropped, and the protected root
      between them decides instead. */
  lemma NormalizationCanChangeAccess(top: Path, root: Access, protected: Access, sibling: Access)
    requires Top(top) && root != protected
    ensures var s := Interrupted(top, root, protected, sibling, root);
            && !Contiguous(s) && Masked(s, 3)
            && Lookup(s, INNER) == Some(root) && Lookup(Normalize(s), INNER) == Some(protected)
  {
    hide Within, Visible, NearestVisible, Normalize, Lookup, Contiguous, Repeats;
    var s := Interrupted(top, root, protected, sibling, root);
    InterruptedSorted(s);
    InnerSeesRoot(s);
    InterruptedKept(top, root, protected, sibling, root);
    OwnLookup(s, 3);
    NormalizeSelects(s);
    ProtectedGoverns(s, Normalize(s));
    LookupGoverned(Normalize(s), s[1], INNER);
    if Contiguous(s) { NormalizeFaithful(s); }
  }

  lemma ProtectedGoverns(s: seq<Entry>, t: seq<Entry>)
    requires AtPaths(s)
    requires !Repeats(s, 1) && Repeats(s, 3) && DistinctPaths(s)
    requires forall e :: e in t <==> exists k: nat | k < 4 :: RetainedAt(s, e, k)
    ensures Governs(t, s[1], INNER)
  {
    hide Within, Repeats;
    Containment(s[0].path);
    OwnWithin(PROTECTED);
    assert RetainedAt(s, s[1], 1);
    forall d | d in t && Within(d.path, INNER) ensures Within(d.path, PROTECTED) {
      var k: nat :| k < 4 && RetainedAt(s, d, k);
    }
  }

  /** Without the hypothesis one pass can leave an entry that a second pass drops, so
      the snapshot constructor refuses its own producer's output, and two lists with
      the same access at every path can have different normal forms. */
  lemma NormalizationCanNeedASecondPass(top: Path, root: Access, protected: Access)
    requires Top(top) && root != protected
    ensures var s := Interrupted(top, root, protected, root, protected);
            && DistinctPaths(s) && DistinctPaths(Normalize(s))
            && (forall q :: Lookup(Normalize(s), q) == Lookup(s, q))
            && Normalize(Normalize(s)) != Normalize(s)
            && (forall w :: !Issuable(w, Normalize(s)))
  {
    hide Within, Visible, NearestVisible, Normalize, LexLess, Repeats, Parent, Lookup, StrictlyAscending;
    var s := Interrupted(top, root, protected, root, protected);
    InterruptedSorted(s);
    InnerSeesRoot(s);
    InterruptedKept(top, root, protected, root, protected);
    InnerIsUncovered(s);
    NormalizeIdempotentIff(s);
    NormalizeSelects(s);
    NothingIsMasked(s);
    NormalizeFaithfulIff(s);
  }

  lemma NothingIsMasked(s: seq<Entry>)
    requires AtPaths(s)
    requires s[2].access == s[0].access != s[3].access
    requires NearestVisible(s, 0, 3) && NearestVisible(s, 0, 2) && NearestVisible(s, 0, 1)
    ensures forall k | 0 <= k < |s| :: !Masked(s, k)
  {
    hide Within, Visible;
    Containment(s[0].path);
    forall k: nat, u: nat, p: nat | k < 4 && NearestVisible(s, u, k) && Parent(s, p, k)
      ensures k > 0 && u < k && p < k && (k == 3 ==> s[u].access != s[k].access) && (k < 3 ==> p == 0)
    {
      NearestIsVisible(s, u, k);
      if k > 0 {
        NearestIsLast(s, 0, u, k);
        NearestIsVisible(s, 0, k);
        NearestIsLast(s, u, 0, k);
      }
    }
  }

  lemma InnerIsUncovered(s: seq<Entry>)
    requires AtPaths(s)
    requires !Repeats(s, 1) && Repeats(s, 2) && !Repeats(s, 3) && s[1].access == s[3].access
    ensures Uncovered(s, 3)
  {
    hide Within, Repeats;
    Containment(s[0].path);
    assert NearestKept(s, 1, 3);
  }
}
