// Normalization as a canonical form: coverage, fixed points, the ordering
// hypothesis under which the byte order visits a subtree without interruption,
// and uniqueness of the normalized list.
module CanonicalForm {
  import opened Order
  import opened Paths
  import opened Policy
  import opened Normalization

  // --------------------------------------------------------- in general

  /** Normalization drops no authority: an entry only goes when an ancestor stays. */
  lemma NormalizeCovers(es: seq<Entry>, p: Path)
    ensures Covered(Normalize(es), p) <==> Covered(es, p)
  {
    hide Within, Repeats;
    var s := SortBy(PathKey, es);
    SortByCorrect(PathKey, es);
    KeptElements(s, |s|);
    if e :| e in es && Within(e.path, p) {
      assert e in s;
      var k :| 0 <= k < |s| && s[k] == e;
      var t := RetainedAncestor(s, k);
      assert RetainedAt(s, s[t], t);
      RetainedContains(s, t, k, p);
    }
    if e :| e in Kept(s, |s|) && Within(e.path, p) {
      var k: nat :| k < |s| && RetainedAt(s, e, k);
    }
  }

  /** The result is a strictly sorted selection of the input. */
  lemma NormalizeSelects(es: seq<Entry>)
    requires DistinctPaths(es)
    ensures var t := Normalize(es);
            StrictlyAscending(PathKey, t) && AncestorsFirst(t) && DistinctPaths(t) && forall e | e in t :: e in es
    ensures es != [] ==> Normalize(es) != []
  {
    hide Within, Repeats;
    SortEntries(es);
    var s := SortBy(PathKey, es);
    KeptSorted(s, |s|);
    KeptElements(s, |s|);
    forall e | e in Normalize(es) ensures e in es {
      var k: nat :| k < |s| && RetainedAt(s, e, k);
    }
    if es != [] {
      assert es[0] in s;
      assert RetainedAt(s, s[0], 0) by { RepeatsNeedsAncestor(s, 0); }
      assert s[0] in Normalize(es);
    }
  }

  /** No entry repeats the access of its nearest visible ancestor. */
  ghost predicate NothingRepeats(s: seq<Entry>) {
    forall k | 0 <= k < |s| :: !Repeats(s, k)
  }

  lemma {:induction false} KeptAll(s: seq<Entry>, n: nat)
    requires n <= |s|
    ensures |Kept(s, n)| <= n
    ensures |Kept(s, n)| == n <==> forall k | 0 <= k < n :: !Repeats(s, k)
    ensures |Kept(s, n)| == n ==> Kept(s, n) == s[..n]
  {
    hide Repeats;
    if n > 0 {
      KeptAll(s, n - 1);
      assert s[..n] == s[..n - 1] + [s[n - 1]];
    }
  }

  /** A list is its own normal form exactly when it is strictly sorted and no
      entry repeats its nearest visible ancestor. */
  lemma NormalizeFixedIff(es: seq<Entry>)
    requires DistinctPaths(es)
    ensures Normalize(es) == es <==> StrictlyAscending(PathKey, es) && NothingRepeats(es)
  {
    hide Repeats, StrictlyAscending;
    NormalizeSelects(es);
    if StrictlyAscending(PathKey, es) {
      SortedIsFixed(PathKey, es);
      KeptAll(es, |es|);
      assert es[..|es|] == es;
    }
  }

  // --------------------------------------------- the ordering hypothesis

  /** No path sorts between an ancestor and its descendant without being below
      the ancestor itself. */
  ghost predicate Contiguous(es: seq<Entry>) {
    forall x, y, z | x in es && y in es && z in es ::
      Between(x.path, y.path, z.path) ==> Within(x.path, y.path)
  }

  ghost predicate Between(x: Path, y: Path, z: Path) {
    Within(x, z) && PathLess(x, y) && PathLess(y, z)
  }

  /** Path y continues path x with a character below '/'. */
  predicate Interrupts(x: Path, y: Path) { x < y && x != "/" && y[|x|] < '/' }

  /** The order is contiguous exactly when no entry interrupts an entry that has
      a descendant: "/a/b-x" interrupts "/a/b" if "/a/b/c" is there too. */
  lemma ContiguousIff(es: seq<Entry>)
    ensures Contiguous(es) <==>
            forall x, y, z | x in es && y in es && z in es && StrictlyWithin(x.path, z.path) ::
                !Interrupts(x.path, y.path)
  {
    hide Interrupts, PathLess;
    forall x, y, z | x in es && y in es && z in es
      ensures StrictlyWithin(x.path, z.path) && Interrupts(x.path, y.path) <==>
              Between(x.path, y.path, z.path) && !Within(x.path, y.path)
    {
      InterruptsIff(x.path, y.path, z.path);
    }
  }

  lemma InterruptsIff(x: Path, y: Path, z: Path)
    ensures StrictlyWithin(x, z) && Interrupts(x, y) <==> Between(x, y, z) && !Within(x, y)
  {
    if StrictlyWithin(x, z) && Interrupts(x, y) { InterruptingIsBetween(x, y, z); }
    if Between(x, y, z) && !Within(x, y) {
      PathTotal(x, y);
      BetweenStartsWith(x, y, z);
    }
  }

  lemma InterruptingIsBetween(x: Path, y: Path, z: Path)
    requires StrictlyWithin(x, z) && Interrupts(x, y)
    ensures Between(x, y, z) && !Within(x, y)
  {
    assert Codes(x) == Codes(y)[..|x|];
    LexPrefix(Codes(x), Codes(y));
    assert z[..|x| + 1] == x + "/";
    assert z[..|x|] == x == y[..|x|] && z[|x|] == '/';
    CompareAt(y, z, |x|);
    assert Below(x)[|x|] == '/';
  }

  /** Paths written only with characters from '/' upwards are always contiguous. */
  lemma PlainPathsAreContiguous(es: seq<Entry>)
    requires forall e, i | e in es && 0 <= i < |e.path| :: '/' <= e.path[i]
    ensures Contiguous(es)
  {
    ContiguousIff(es);
  }

  lemma ContiguousSubset(a: seq<Entry>, b: seq<Entry>)
    requires Contiguous(b) && forall e | e in a :: exists d :: d in b && d.path == e.path
    ensures Contiguous(a)
  {
    hide Within, Between;
    forall x, y, z | x in a && y in a && z in a ensures Between(x.path, y.path, z.path) ==> Within(x.path, y.path) {
      var x' :| x' in b && x'.path == x.path;
      var y' :| y' in b && y'.path == y.path;
      var z' :| z' in b && z'.path == z.path;
    }
  }

  /** In a contiguous order every ancestor is visible. */
  lemma ParentIsVisible(s: seq<Entry>, x: nat, k: nat)
    requires StrictlyAscending(PathKey, s) && Contiguous(s)
    requires x < k < |s| && Within(s[x].path, s[k].path)
    ensures Visible(s, x, k)
  {
    hide Within, LexLess;
    forall y | x < y <= k ensures Within(s[x].path, s[y].path) {
      if y < k {
        assert LexLess(PathKey(s[x]), PathKey(s[y])) && LexLess(PathKey(s[y]), PathKey(s[k]));
        assert s[x] in s && s[y] in s && s[k] in s && Between(s[x].path, s[y].path, s[k].path);
      }
    }
  }

  /** Hence nothing is masked, and normalization keeps every lookup. */
  lemma NormalizeFaithful(es: seq<Entry>)
    requires DistinctPaths(es) && Contiguous(es)
    ensures NothingMasked(es)
    ensures forall q :: Lookup(Normalize(es), q) == Lookup(es, q)
  {
    hide Lookup, ParentsDecide, Reduced, Normalize, NothingMasked, Contiguous;
    ContiguousDecides(es);
    NormalizeCanonicalIff(es);
    NormalizeFaithfulIff(es);
  }

  // ------------------------------------------------- uniqueness

  /** Every entry changes the access its innermost proper ancestor gives. */
  ghost predicate Reduced(s: seq<Entry>) {
    forall p: nat, k: nat | p < k < |s| && Parent(s, p, k) :: s[p].access != s[k].access
  }

  /** The pass drops an entry exactly when it repeats the access of its innermost
      proper ancestor, although it compares it with the nearest visible one. */
  ghost predicate ParentsDecide(es: seq<Entry>) {
    var s := SortBy(PathKey, es);
    forall p: nat, k: nat | p < k < |s| && Parent(s, p, k) :: Repeats(s, k) <==> s[p].access == s[k].access
  }

  lemma ParentBound(t: seq<Entry>, p: nat, k: nat)
    requires k < |t| && Parent(t, p, k)
    ensures p < k && Within(t[p].path, t[k].path)
  {
  }

  /** The list t selects the non-repeating entries of s. */
  ghost predicate Selects(s: seq<Entry>, t: seq<Entry>) {
    forall e :: e in t <==> exists n: nat | n < |s| :: RetainedAt(s, e, n)
  }

  /** The innermost ancestor that retained entry t[j] has in t decides there for
      the innermost ancestor it has in s. */
  lemma RetainedParentGoverns(s: seq<Entry>, t: seq<Entry>, p: nat, k: nat, i: nat, j: nat)
    requires AncestorsFirst(s) && DistinctPaths(s) && AncestorsFirst(t) && DistinctPaths(t) && Selects(s, t)
    requires k < |s| && Parent(s, p, k) && j < |t| && t[j] == s[k] && Parent(t, i, j)
    ensures Lookup(t, s[p].path) == Some(t[i].access)
  {
    hide Within, Repeats, AncestorsFirst, Lookup;
    ParentBound(s, p, k);
    ParentBound(t, i, j);
    assert t[i] in t;
    var r: nat :| r < |s| && RetainedAt(s, t[i], r);
    InnermostContains(s, p, k, r);
    forall d | d in t && Within(d.path, s[p].path) ensures Within(d.path, t[i].path) {
      var m :| 0 <= m < |t| && t[m] == d;
      WithinTransitive(d.path, s[p].path, s[k].path);
      if d.path == s[k].path { WithinAntisymmetric(s[p].path, s[k].path); }
      InnermostContains(t, i, j, m);
    }
    LookupGoverned(t, t[i], s[p].path);
  }

  /** Every other ancestor contains the innermost one. */
  lemma InnermostContains(s: seq<Entry>, p: nat, k: nat, r: nat)
    requires AncestorsFirst(s) && DistinctPaths(s) && k < |s| && Parent(s, p, k)
    requires r < |s| && Within(s[r].path, s[k].path) && s[r].path != s[k].path
    ensures Within(s[r].path, s[p].path)
  {
    hide Within;
    ParentBound(s, p, k);
    WithinChain(s[r].path, s[p].path, s[k].path);
  }

  /** The pass keeps every lookup and leaves no redundant entry exactly when the
      innermost ancestor decides on every entry. */
  lemma NormalizeCanonicalIff(es: seq<Entry>)
    requires DistinctPaths(es)
    ensures (forall q :: Lookup(Normalize(es), q) == Lookup(es, q)) && Reduced(Normalize(es)) <==> ParentsDecide(es)
  {
    hide Within, Repeats, AncestorsFirst, Lookup, Reduced, NothingMasked, Masked, ParentsDecide, Parent;
    var s, t := SortBy(PathKey, es), Normalize(es);
    SortEntries(es);
    NormalizeFaithfulIff(es);
    NormalizeSelects(es);
    KeptElements(s, |s|);
    if ParentsDecide(es) { DecidedIsCanonical(es); }
    if (forall q :: Lookup(t, q) == Lookup(es, q)) && Reduced(t) {
      CanonicalIsDecided(es);
    }
  }

  lemma DecidedIsCanonical(es: seq<Entry>)
    requires DistinctPaths(es) && ParentsDecide(es)
    ensures (forall q :: Lookup(Normalize(es), q) == Lookup(es, q)) && Reduced(Normalize(es))
  {
    hide Within, Repeats, AncestorsFirst, Lookup, Normalize, StrictlyAscending, Parent, Visible, NearestVisible;
    var s, t := SortBy(PathKey, es), Normalize(es);
    SortEntries(es);
    NormalizeSelects(es);
    SelectsKept(es);
    forall k | 0 <= k < |s| ensures !Masked(s, k) { DecidedNotMasked(es, k); }
    NormalizeFaithfulIff(es);
    forall i: nat, j: nat | i < j < |t| && Parent(t, i, j) ensures t[i].access != t[j].access {
      ParentBound(t, i, j);
      assert t[i] in t && t[j] in t;
      var k: nat :| k < |s| && RetainedAt(s, t[j], k);
      var r: nat :| r < |s| && RetainedAt(s, t[i], r);
      DistinctAt(t, i, j);
      var p := ParentExists(s, r, k);
      RetainedParentGoverns(s, t, p, k, i, j);
      OwnLookup(s, p);
      LookupOrderFree(s, es, s[p].path);
    }
  }

  lemma DistinctAt(t: seq<Entry>, i: nat, j: nat)
    requires DistinctPaths(t) && i < j < |t|
    ensures t[i].path != t[j].path
  {
  }

  lemma SelectsKept(es: seq<Entry>)
    ensures Selects(SortBy(PathKey, es), Normalize(es))
  {
    hide Repeats;
    KeptElements(SortBy(PathKey, es), |SortBy(PathKey, es)|);
  }

  lemma DecidedNotMasked(es: seq<Entry>, k: nat)
    requires ParentsDecide(es) && k < |SortBy(PathKey, es)|
    ensures !Masked(SortBy(PathKey, es), k)
  {
    hide Within;
    var s := SortBy(PathKey, es);
    forall u: nat, p: nat | u < k && p < k && NearestVisible(s, u, k) && Parent(s, p, k) && s[u].access == s[k].access
      ensures s[p].access == s[k].access
    {
      ParentBound(s, p, k);
      assert Repeats(s, k);
    }
  }

  lemma CanonicalIsDecided(es: seq<Entry>)
    requires DistinctPaths(es) && (forall q :: Lookup(Normalize(es), q) == Lookup(es, q)) && Reduced(Normalize(es))
    ensures ParentsDecide(es)
  {
    hide Within, AncestorsFirst, Lookup, Normalize, StrictlyAscending, Parent, Repeats, NothingMasked, Reduced;
    var s, t := SortBy(PathKey, es), Normalize(es);
    SortEntries(es);
    NormalizeSelects(es);
    SelectsKept(es);
    NormalizeFaithfulIff(es);
    forall p: nat, k: nat | p < k < |s| && Parent(s, p, k) ensures Repeats(s, k) <==> s[p].access == s[k].access {
      ParentBound(s, p, k);
      OwnLookup(s, p);
      LookupOrderFree(s, es, s[p].path);
      if Repeats(s, k) {
        assert !Masked(s, k) by { NothingMaskedAt(es, k); }
        RepeatingHasParentAccess(s, p, k);
      } else {
        assert RetainedAt(s, s[k], k);
        assert s[k] in t;
        var j: nat :| j < |t| && t[j] == s[k];
        var g := LookupIsGoverned(t, s[p].path);
        var m: nat :| m < |t| && t[m] == g;
        WithinTransitive(g.path, s[p].path, s[k].path);
        if m == j { AncestorBefore(s, k, p); }
        var i := ParentExists(t, m, j);
        RetainedParentGoverns(s, t, p, k, i, j);
        ReducedAt(t, i, j);
      }
    }
  }

  lemma NothingMaskedAt(es: seq<Entry>, k: nat)
    requires NothingMasked(es) && k < |SortBy(PathKey, es)|
    ensures !Masked(SortBy(PathKey, es), k)
  {
    hide Masked;
  }

  lemma AncestorBefore(s: seq<Entry>, k: nat, p: nat)
    requires AncestorsFirst(s) && k < |s| && p < |s| && Within(s[k].path, s[p].path)
    ensures k <= p
  {
    hide Within;
  }

  lemma RepeatingHasParentAccess(s: seq<Entry>, p: nat, k: nat)
    requires k < |s| && Parent(s, p, k) && Repeats(s, k) && !Masked(s, k)
    ensures p < k && s[p].access == s[k].access
  {
    hide Within, Visible, NearestVisible, Parent;
    ParentBound(s, p, k);
    var u := RepeatedAncestor(s, k);
  }

  /** In a contiguous order the nearest visible ancestor is the innermost one. */
  lemma ContiguousDecides(es: seq<Entry>)
    requires DistinctPaths(es) && Contiguous(es)
    ensures ParentsDecide(es)
  {
    hide Within, Repeats, StrictlyAscending, Contiguous, Parent;
    var s := SortBy(PathKey, es);
    SortEntries(es);
    ContiguousSubset(s, es);
    forall p: nat, k: nat | p < k < |s| && Parent(s, p, k) ensures Repeats(s, k) <==> s[p].access == s[k].access {
      ParentBound(s, p, k);
      ParentIsNearest(s, p, k);
      RepeatsNearest(s, k, p);
    }
  }

  lemma ParentIsNearest(s: seq<Entry>, p: nat, k: nat)
    requires StrictlyAscending(PathKey, s) && Contiguous(s) && k < |s| && Parent(s, p, k)
    ensures NearestVisible(s, p, k)
  {
    hide Within, StrictlyAscending, Contiguous;
    ParentIsVisible(s, p, k);
  }

  lemma NormalizeReduces(es: seq<Entry>)
    requires DistinctPaths(es) && Contiguous(es)
    ensures Reduced(Normalize(es)) && NothingRepeats(Normalize(es))
  {
    hide Within, Repeats, LexLess, Contiguous, Lookup, ParentsDecide, Normalize, Reduced;
    NormalizeSelects(es);
    var t := Normalize(es);
    ContiguousSubset(t, es);
    ContiguousDecides(es);
    NormalizeCanonicalIff(es);
    forall k | 0 <= k < |t| ensures !Repeats(t, k) { ReducedRepeatsNothing(t, k); }
  }

  lemma ReducedRepeatsNothing(t: seq<Entry>, k: nat)
    requires k < |t| && Reduced(t) && StrictlyAscending(PathKey, t) && Contiguous(t)
    ensures !Repeats(t, k)
  {
    hide Within, StrictlyAscending, Contiguous, Visible;
    if Repeats(t, k) {
      var u := RepeatedAncestor(t, k);
      NearestIsParent(t, u, k);
    }
  }

  lemma NearestIsParent(t: seq<Entry>, u: nat, k: nat)
    requires k < |t| && StrictlyAscending(PathKey, t) && Contiguous(t) && NearestVisible(t, u, k)
    ensures Parent(t, u, k)
  {
    hide Within, StrictlyAscending, Contiguous, Visible;
    NearestContains(t, u, k);
    forall y | u < y < k ensures !Within(t[y].path, t[k].path) {
      if Within(t[y].path, t[k].path) { ParentIsVisible(t, y, k); }
    }
  }

  /** Normalizing twice is normalizing once. */
  lemma NormalizeIdempotent(es: seq<Entry>)
    requires DistinctPaths(es) && Contiguous(es)
    ensures Normalize(Normalize(es)) == Normalize(es)
  {
    NormalizeSelects(es);
    NormalizeReduces(es);
    NormalizeFixedIff(Normalize(es));
  }

  /** In a reduced list an entry is decided by the lookups alone. */
  lemma ReducedEntryIsForced(a: seq<Entry>, b: seq<Entry>, e: Entry)
    requires AncestorsFirst(a) && AncestorsFirst(b) && DistinctPaths(a) && DistinctPaths(b)
    requires Reduced(a) && Reduced(b) && forall q :: Lookup(a, q) == Lookup(b, q)
    requires e in a
    ensures e in b
  {
    hide Within, Reduced;
    LookupOwnPath(a, e);
    var d := LookupIsGoverned(b, e.path);
    LookupOwnPath(b, d);
    var c := LookupIsGoverned(a, d.path);
    GovernorIsOwn(a, b, e, d, c);
  }

  /** The entry of b that governs e's path has that very path: were it d properly
      above e, the parent of e in a would lie below d and change the lookup there. */
  lemma GovernorIsOwn(a: seq<Entry>, b: seq<Entry>, e: Entry, d: Entry, c: Entry)
    requires AncestorsFirst(a) && DistinctPaths(a) && DistinctPaths(b) && Reduced(a)
    requires forall q :: Lookup(a, q) == Lookup(b, q)
    requires e in a && Governs(b, d, e.path) && d.access == e.access
    requires Governs(a, c, d.path) && c.access == d.access
    ensures d.path == e.path
  {
    hide Within, Reduced;
    if d.path != e.path {
      WithinTransitive(c.path, d.path, e.path);
      var k :| 0 <= k < |a| && a[k] == e;
      var i :| 0 <= i < |a| && a[i] == c;
      if c.path == e.path { WithinAntisymmetric(d.path, e.path); }
      var p := ParentExists(a, i, k);
      var f := a[p];
      ReducedAt(a, p, k);
      LookupOwnPath(a, f);
      WithinChain(f.path, d.path, e.path);
      assert Within(d.path, f.path) by {
        if Within(f.path, d.path) { ParentIsLowest(a, p, i, k); }
      }
      GovernsBetween(b, d, f.path, e.path);
      LookupGoverned(b, d, f.path);
    }
  }

  lemma ReducedAt(a: seq<Entry>, p: nat, k: nat)
    requires Reduced(a) && k < |a| && Parent(a, p, k)
    ensures a[p].access != a[k].access
  {
  }

  lemma {:induction false} ParentExists(a: seq<Entry>, i: nat, k: nat) returns (p: nat)
    requires AncestorsFirst(a) && i < |a| && k < |a| && i != k && Within(a[i].path, a[k].path)
    ensures i <= p < k && Parent(a, p, k)
    decreases k - i
  {
    hide Within;
    if y: nat :| i < y < k && Within(a[y].path, a[k].path) { p := ParentExists(a, y, k); } else { p := i; }
  }

  lemma ParentIsLowest(a: seq<Entry>, p: nat, i: nat, k: nat)
    requires AncestorsFirst(a) && DistinctPaths(a) && k < |a| && Parent(a, p, k) && i <= p
    requires Within(a[p].path, a[i].path)
    ensures p == i
  {
  }

  lemma GovernsBetween(b: seq<Entry>, d: Entry, f: Path, e: Path)
    requires Governs(b, d, e) && Within(d.path, f) && Within(f, e)
    ensures Governs(b, d, f)
  {
    hide Within;
    forall g | g in b && Within(g.path, f) ensures Within(g.path, d.path) { WithinTransitive(g.path, f, e); }
  }

  /** The normal form is canonical where innermost ancestors decide: two such lists
      have the same one exactly when they give every path the same access. */
  lemma CanonicalFormUnique(a: seq<Entry>, b: seq<Entry>)
    requires DistinctPaths(a) && ParentsDecide(a) && DistinctPaths(b) && ParentsDecide(b)
    ensures Normalize(a) == Normalize(b) <==> forall q :: Lookup(a, q) == Lookup(b, q)
  {
    hide ParentsDecide, AncestorsFirst, Reduced, NothingMasked, Normalize, Lookup;
    NormalizeCanonicalIff(a);
    NormalizeCanonicalIff(b);
    if forall q :: Lookup(a, q) == Lookup(b, q) {
      ReducedUnique(a, b);
    } else {
      var q :| Lookup(a, q) != Lookup(b, q);
      assert Lookup(Normalize(a), q) != Lookup(Normalize(b), q);
    }
  }

  lemma ReducedUnique(a: seq<Entry>, b: seq<Entry>)
    requires DistinctPaths(a) && DistinctPaths(b) && Reduced(Normalize(a)) && Reduced(Normalize(b))
    requires forall q :: Lookup(Normalize(a), q) == Lookup(Normalize(b), q)
    ensures Normalize(a) == Normalize(b)
  {
    hide Reduced, Normalize, Lookup, AncestorsFirst;
    NormalizeSelects(a); NormalizeSelects(b);
    forall e ensures e in Normalize(a) <==> e in Normalize(b) {
      if e in Normalize(a) { ReducedEntryIsForced(Normalize(a), Normalize(b), e); }
      if e in Normalize(b) { ReducedEntryIsForced(Normalize(b), Normalize(a), e); }
    }
    StrictlyAscendingSet(PathKey, Normalize(a), Normalize(b));
  }
}
