// What normalization means: exactly when it keeps every lookup, and when its
// result is the canonical form of the policy.
module Normalization {
  import opened Order
  import opened Paths
  import opened Policy

  // ---------------------------------------------- the order of the input

  lemma SortedAncestorsFirst(s: seq<Entry>)
    requires StrictlyAscending(PathKey, s)
    ensures AncestorsFirst(s) && DistinctPaths(s)
  {
    forall i, j | 0 <= i < |s| && 0 <= j < |s| && Within(s[i].path, s[j].path) ensures i <= j {
      if j < i {
        assert LexLess(PathKey(s[j]), PathKey(s[i]));
        PathTotal(s[j].path, s[i].path);
        AncestorFirst(s[i].path, s[j].path);
      }
    }
    forall i, j | 0 <= i < j < |s| ensures s[i].path != s[j].path {
      assert LexLess(PathKey(s[i]), PathKey(s[j]));
      PathTotal(s[i].path, s[j].path);
    }
  }

  lemma SortEntries(es: seq<Entry>)
    requires DistinctPaths(es)
    ensures var s := SortBy(PathKey, es);
            StrictlyAscending(PathKey, s) && AncestorsFirst(s) && DistinctPaths(s) && forall e :: e in s <==> e in es
  {
    forall i, j | 0 <= i < j < |es| ensures PathKey(es[i]) != PathKey(es[j]) {
      if PathKey(es[i]) == PathKey(es[j]) { CodesInjective(es[i].path, es[j].path); }
    }
    SortByStrict(PathKey, es);
    SortByCorrect(PathKey, es);
    SortedAncestorsFirst(SortBy(PathKey, es));
  }

  /** Ancestors stand before descendants, and no path stands twice. */
  ghost predicate AncestorsFirst(s: seq<Entry>) {
    forall i, j | 0 <= i < |s| && 0 <= j < |s| && Within(s[i].path, s[j].path) :: i <= j
  }

  // ----------------------------------------- normalization without a stack

  /** Entry x is an ancestor of entry k and of every entry between them. */
  ghost predicate Visible(s: seq<Entry>, x: nat, k: nat)
    requires k < |s|
  {
    x < k && forall y | x < y <= k :: Within(s[x].path, s[y].path)
  }

  ghost predicate NearestVisible(s: seq<Entry>, x: nat, k: nat)
    requires k < |s|
  {
    Visible(s, x, k) && forall y: nat | x < y < k :: !Visible(s, y, k)
  }

  /** Entry k repeats the access of its nearest visible ancestor. */
  ghost predicate Repeats(s: seq<Entry>, k: nat)
    requires k < |s|
  {
    exists x: nat :: NearestVisible(s, x, k) && s[x].access == s[k].access
  }

  /** The first n entries without the repeating ones. */
  ghost function Kept(s: seq<Entry>, n: nat): seq<Entry>
    requires n <= |s|
  {
    if n == 0 then []
    else if Repeats(s, n - 1) then Kept(s, n - 1)
    else Kept(s, n - 1) + [s[n - 1]]
  }

  ghost function Normalize(es: seq<Entry>): seq<Entry> {
    var s := SortBy(PathKey, es);
    Kept(s, |s|)
  }

  // ---------------------------------------------------- the stack pass

  /** Entry x is retained and contains every entry from it up to entry n. */
  ghost predicate OnStack(s: seq<Entry>, n: nat, x: nat)
    requires n <= |s|
  {
    x < n && !Repeats(s, x) && forall y | x < y < n :: Within(s[x].path, s[y].path)
  }

  /** st lists, in increasing order, the indices of the entries `ancestors`. */
  ghost predicate Located(s: seq<Entry>, st: seq<nat>, ancestors: seq<Entry>) {
    && |st| == |ancestors|
    && (forall i | 0 <= i < |st| :: st[i] < |s| && s[st[i]] == ancestors[i])
    && (forall i, j | 0 <= i < j < |st| :: st[i] < st[j])
  }

  /** The stack holds the retained entries that contain everything up to entry n. */
  ghost predicate StackAt(s: seq<Entry>, n: nat, st: seq<nat>, ancestors: seq<Entry>) {
    n <= |s| && Located(s, st, ancestors) && forall x: nat :: x in st <==> OnStack(s, n, x)
  }

  /** The stack while entries that do not contain entry n are discarded. */
  ghost predicate Unwinding(s: seq<Entry>, n: nat, st: seq<nat>, ancestors: seq<Entry>) {
    && n < |s| && Located(s, st, ancestors)
    && (forall x: nat | x in st :: OnStack(s, n, x))
    && (forall x: nat | OnStack(s, n, x) && x !in st :: !Within(s[x].path, s[n].path))
  }

  /** normalizeAllowedRootEntries: sort, then one pass with a stack of retained ancestors. */
  method NormalizeEntries(es: seq<Entry>) returns (kept: seq<Entry>)
    ensures kept == Normalize(es)
  {
    hide Within, Repeats, Located, OnStack;
    if |es| == 0 { return []; }
    var sorted := SortBy(PathKey, es);
    kept := [];
    var ancestors: seq<Entry> := [];
    ghost var st: seq<nat> := [];
    StackStarts(sorted);
    for n := 0 to |sorted|
      invariant kept == Kept(sorted, n) && StackAt(sorted, n, st, ancestors)
    {
      var e := sorted[n];
      while |ancestors| > 0 && !Within(ancestors[|ancestors| - 1].path, e.path)
        invariant Unwinding(sorted, n, st, ancestors)
      {
        PopOne(sorted, n, st, ancestors);
        ancestors := ancestors[..|ancestors| - 1];
        st := st[..|st| - 1];
      }
      TopDecides(sorted, n, st, ancestors);
      if |ancestors| > 0 && ancestors[|ancestors| - 1].access == e.access {
        continue;
      }
      kept := kept + [e];
      ancestors := ancestors + [e];
      st := st + [n];
    }
  }

  lemma StackStarts(s: seq<Entry>)
    ensures StackAt(s, 0, [], [])
  {
  }

  lemma PopOne(s: seq<Entry>, n: nat, st: seq<nat>, ancestors: seq<Entry>)
    requires Unwinding(s, n, st, ancestors)
    requires ancestors != [] && !Within(ancestors[|ancestors| - 1].path, s[n].path)
    ensures |st| == |ancestors| && Unwinding(s, n, st[..|st| - 1], ancestors[..|ancestors| - 1])
  {
    hide Within, Repeats;
    assert st == st[..|st| - 1] + [st[|st| - 1]];
  }

  lemma StackHoldsVisible(s: seq<Entry>, n: nat, st: seq<nat>, ancestors: seq<Entry>)
    requires Unwinding(s, n, st, ancestors)
    requires ancestors == [] || Within(ancestors[|ancestors| - 1].path, s[n].path)
    ensures forall x: nat :: x in st <==> x < n && !Repeats(s, x) && Visible(s, x, n)
  {
    hide Within, Repeats;
    forall x: nat | x in st ensures Visible(s, x, n) {
      var i :| 0 <= i < |st| && st[i] == x;
      var top := st[|st| - 1];
      assert OnStack(s, n, x) && OnStack(s, n, top);
      if i < |st| - 1 { WithinTransitive(s[x].path, s[top].path, s[n].path); }
    }
    forall x: nat | x < n && !Repeats(s, x) && Visible(s, x, n) ensures x in st {
      assert OnStack(s, n, x);
    }
  }

  /** Once unwound, the top of the stack tells whether entry n repeats its access,
      and either way the stack is ready for the next entry. */
  lemma TopDecides(s: seq<Entry>, n: nat, st: seq<nat>, ancestors: seq<Entry>)
    requires Unwinding(s, n, st, ancestors)
    requires ancestors == [] || Within(ancestors[|ancestors| - 1].path, s[n].path)
    ensures Repeats(s, n) <==> ancestors != [] && ancestors[|ancestors| - 1].access == s[n].access
    ensures Repeats(s, n) ==> StackAt(s, n + 1, st, ancestors)
    ensures !Repeats(s, n) ==> StackAt(s, n + 1, st + [n], ancestors + [s[n]])
  {
    hide Within, Repeats;
    StackHoldsVisible(s, n, st, ancestors);
    RepeatsTop(s, n, st);
    forall x: nat ensures OnStack(s, n + 1, x) <==> x in st || (x == n && !Repeats(s, n)) {
      if x < n { assert Visible(s, x, n) <==> forall y | x < y < n + 1 :: Within(s[x].path, s[y].path); }
    }
  }

  lemma VisibleShorter(s: seq<Entry>, x: nat, v: nat, u: nat)
    requires x < v <= u < |s| && Visible(s, x, u)
    ensures Visible(s, x, v)
  {
    hide Within;
  }

  lemma NearestIsVisible(s: seq<Entry>, v: nat, u: nat)
    requires u < |s| && NearestVisible(s, v, u)
    ensures v < u && Visible(s, v, u)
  {
    hide Within;
  }

  lemma NearestIsLast(s: seq<Entry>, v: nat, x: nat, u: nat)
    requires u < |s| && NearestVisible(s, v, u) && Visible(s, x, u)
    ensures x <= v
  {
    hide Within;
  }

  /** The innermost retained visible ancestor has the access of the nearest visible one. */
  lemma RepeatsTop(s: seq<Entry>, n: nat, st: seq<nat>)
    requires n < |s|
    requires forall i, j | 0 <= i < j < |st| :: st[i] < st[j]
    requires forall x: nat :: x in st <==> x < n && !Repeats(s, x) && Visible(s, x, n)
    requires forall i | 0 <= i < |st| :: st[i] < |s|
    ensures Repeats(s, n) <==> st != [] && s[st[|st| - 1]].access == s[n].access
  {
    assert forall i | 0 <= i < |st| :: st[i] in st;
    if x: nat :| x < n && Visible(s, x, n) {
      var u := NearestVisibleExists(s, n, x);
      TopIsRetained(s, n, u, st);
      RepeatsNearest(s, n, u);
    } else {
      RepeatsNeedsAncestor(s, n);
    }
  }

  lemma RepeatsNearest(s: seq<Entry>, n: nat, u: nat)
    requires n < |s| && NearestVisible(s, u, n)
    ensures u < n && (Repeats(s, n) <==> s[u].access == s[n].access)
  {
    hide Within, Visible;
    NearestIsVisible(s, u, n);
    forall v: nat | NearestVisible(s, v, n) ensures v == u {
      NearestIsVisible(s, v, n);
      NearestIsLast(s, u, v, n);
      NearestIsLast(s, v, u, n);
    }
  }

  lemma RepeatsNeedsAncestor(s: seq<Entry>, n: nat)
    requires n < |s|
    ensures Repeats(s, n) ==> exists x: nat :: x < n && Visible(s, x, n)
  {
    hide Within;
  }

  lemma TopIsRetained(s: seq<Entry>, n: nat, u: nat, st: seq<nat>)
    requires n < |s| && NearestVisible(s, u, n)
    requires forall i, j | 0 <= i < j < |st| :: st[i] < st[j]
    requires forall x: nat :: x in st <==> x < n && !Repeats(s, x) && Visible(s, x, n)
    ensures u < n && st != [] && st[|st| - 1] < |s| && s[st[|st| - 1]].access == s[u].access
  {
    hide Within, Visible, NearestVisible, Repeats;
    NearestIsVisible(s, u, n);
    var t := RetainedAncestor(s, u);
    if t < u { VisibleThrough(s, t, u, n); }
    assert t in st;
    forall x: nat | x in st ensures x <= t {
      NearestIsLast(s, u, x, n);
      if t < x < u { VisibleShorter(s, x, u, n); }
    }
    LastIsGreatest(st, t);
  }

  lemma {:induction false} RetainedAncestor(s: seq<Entry>, u: nat) returns (t: nat)
    requires u < |s|
    ensures t <= u && (t < u ==> Visible(s, t, u)) && !Repeats(s, t) && s[t].access == s[u].access
    ensures forall x: nat | t < x < u && Visible(s, x, u) :: Repeats(s, x)
    ensures t < u ==> Repeats(s, u)
  {
    hide Within, Visible, NearestVisible;
    if Repeats(s, u) {
      var v := RepeatedAncestor(s, u);
      t := RetainedAncestor(s, v);
      if t < v { VisibleThrough(s, t, v, u); }
      forall x: nat | t < x < u && Visible(s, x, u) ensures Repeats(s, x) {
        NearestIsLast(s, v, x, u);
        if x < v { VisibleShorter(s, x, v, u); }
      }
    } else {
      t := u;
    }
  }

  lemma RepeatedAncestor(s: seq<Entry>, u: nat) returns (v: nat)
    requires u < |s| && Repeats(s, u)
    ensures v < u && NearestVisible(s, v, u) && Visible(s, v, u) && s[v].access == s[u].access
  {
    hide Within;
    v :| NearestVisible(s, v, u) && s[v].access == s[u].access;
  }

  lemma {:induction false} NearestVisibleExists(s: seq<Entry>, k: nat, n: nat) returns (x: nat)
    requires k < |s| && n < k && Visible(s, n, k)
    ensures NearestVisible(s, x, k) && n <= x
    decreases k - n
  {
    hide Within;
    if y: nat :| n < y < k && Visible(s, y, k) { x := NearestVisibleExists(s, k, y); } else { x := n; }
  }

  lemma VisibleThrough(s: seq<Entry>, t: nat, u: nat, k: nat)
    requires u < k < |s| && Visible(s, t, u) && Visible(s, u, k)
    ensures Visible(s, t, k)
  {
    hide Within;
    forall y | t < y <= k ensures Within(s[t].path, s[y].path) {
      if y > u { WithinTransitive(s[t].path, s[u].path, s[y].path); }
    }
  }

  lemma LastIsGreatest(r: seq<nat>, t: nat)
    requires (forall i, j | 0 <= i < j < |r| :: r[i] < r[j]) && t in r && forall x | x in r :: x <= t
    ensures r[|r| - 1] == t
  {
    assert r[|r| - 1] in r;
  }

  // -------------------------------------------- lookups and the last entry

  /** Entry x is the innermost proper ancestor of entry k. */
  ghost predicate Parent(s: seq<Entry>, x: nat, k: nat)
    requires k < |s|
  {
    x < k && Within(s[x].path, s[k].path) && forall y | x < y < k :: !Within(s[y].path, s[k].path)
  }

  /** Greatest index below n whose entry contains q, retained entries only if `kept`. */
  ghost function LastWithin(s: seq<Entry>, n: nat, q: Path, kept: bool): (i: int)
    requires n <= |s|
    ensures -1 <= i < n
  {
    if n == 0 then -1
    else if Within(s[n - 1].path, q) && !(kept && Repeats(s, n - 1)) then n - 1
    else LastWithin(s, n - 1, q, kept)
  }

  lemma {:induction false} LastWithinSpec(s: seq<Entry>, n: nat, q: Path, kept: bool)
    requires n <= |s|
    ensures var i := LastWithin(s, n, q, kept);
            && (i >= 0 ==> Within(s[i].path, q) && (kept ==> !Repeats(s, i)))
            && forall j | i < j < n && Within(s[j].path, q) :: kept && Repeats(s, j)
  {
    hide Within, Repeats;
    if n > 0 { LastWithinSpec(s, n - 1, q, kept); }
  }

  ghost function AccessAt(s: seq<Entry>, i: int): Option<Access>
    requires i < |s|
  {
    if i < 0 then None else Some(s[i].access)
  }

  lemma LookupIsLast(s: seq<Entry>, q: Path)
    requires AncestorsFirst(s)
    ensures Lookup(s, q) == AccessAt(s, LastWithin(s, |s|, q, false))
  {
    hide Within, Repeats;
    DeepestIndexGoverns(s, q);
    LastWithinSpec(s, |s|, q, false);
    var i := DeepestIndex(s, q);
    var j := LastWithin(s, |s|, q, false);
    if i >= 0 {
      assert s[j] in s;
      assert Within(s[j].path, s[i].path);
    }
  }

  ghost predicate RetainedAt(s: seq<Entry>, e: Entry, k: nat)
    requires k < |s|
  {
    s[k] == e && !Repeats(s, k)
  }

  lemma {:induction false} KeptElements(s: seq<Entry>, n: nat)
    requires n <= |s|
    ensures forall e :: e in Kept(s, n) <==> exists k: nat | k < n :: RetainedAt(s, e, k)
  {
    hide Within, Repeats;
    if n > 0 {
      KeptElements(s, n - 1);
      forall e ensures e in Kept(s, n) <==> exists k: nat | k < n :: RetainedAt(s, e, k) {
        assert e in Kept(s, n) <==> e in Kept(s, n - 1) || RetainedAt(s, e, n - 1);
      }
    }
  }

  lemma {:induction false} KeptSorted(s: seq<Entry>, n: nat)
    requires n <= |s| && StrictlyAscending(PathKey, s)
    ensures StrictlyAscending(PathKey, Kept(s, n)) && AncestorsFirst(Kept(s, n)) && DistinctPaths(Kept(s, n))
  {
    hide Within, Repeats, LexLess;
    if n > 0 {
      KeptSorted(s, n - 1);
      KeptElements(s, n - 1);
      var t := Kept(s, n - 1);
      forall i | 0 <= i < |t| ensures LexLess(PathKey(t[i]), PathKey(s[n - 1])) { assert t[i] in t; }
    }
    SortedAncestorsFirst(Kept(s, n));
  }

  /** A lookup in the retained list is decided by the last retained entry containing the path. */
  lemma KeptLookup(s: seq<Entry>, q: Path)
    requires StrictlyAscending(PathKey, s)
    ensures Lookup(Kept(s, |s|), q) == AccessAt(s, LastWithin(s, |s|, q, true))
  {
    hide Within, Repeats, StrictlyAscending;
    SortedAncestorsFirst(s);
    KeptSorted(s, |s|);
    KeptElements(s, |s|);
    LastWithinSpec(s, |s|, q, true);
    var t := Kept(s, |s|);
    var i := LastWithin(s, |s|, q, true);
    if i < 0 {
      DeepestIndexGoverns(t, q);
    } else {
      forall d | d in t && Within(d.path, q) ensures Within(d.path, s[i].path) {
        var j: nat :| j < |s| && RetainedAt(s, d, j);
        WithinChain(s[i].path, s[j].path, q);
      }
      assert RetainedAt(s, s[i], i);
      LookupGoverned(t, s[i], q);
    }
  }

  /** Below entry i, the entries containing q are those containing entry i. */
  lemma {:induction false} LastWithinBelow(s: seq<Entry>, n: nat, i: nat, q: Path, kept: bool)
    requires AncestorsFirst(s) && n <= i + 1 && i < |s| && Within(s[i].path, q)
    ensures LastWithin(s, n, q, kept) == LastWithin(s, n, s[i].path, kept)
  {
    hide Within, Repeats;
    if n > 0 {
      LastWithinBelow(s, n - 1, i, q, kept);
      if Within(s[n - 1].path, q) { WithinChain(s[n - 1].path, s[i].path, q); }
      if Within(s[n - 1].path, s[i].path) { WithinTransitive(s[n - 1].path, s[i].path, q); }
    }
  }

  lemma {:induction false} LastWithinSkips(s: seq<Entry>, n: nat, m: nat, q: Path, kept: bool)
    requires m <= n <= |s|
    requires forall j | m <= j < n && Within(s[j].path, q) :: kept && Repeats(s, j)
    ensures LastWithin(s, n, q, kept) == LastWithin(s, m, q, kept)
  {
    hide Within, Repeats;
    if m < n { LastWithinSkips(s, n - 1, m, q, kept); }
  }

  // ----------------------------------------- when every lookup is preserved

  /** The pass drops entry k for a visible ancestor, but a nearer ancestor that is
      not visible has the other access. */
  ghost predicate Masked(s: seq<Entry>, k: nat)
    requires k < |s|
  {
    exists u: nat, p: nat :: NearestVisible(s, u, k) && Parent(s, p, k) &&
                   s[u].access == s[k].access && s[p].access != s[k].access
  }

  ghost predicate NothingMasked(es: seq<Entry>) {
    var s := SortBy(PathKey, es);
    forall k | 0 <= k < |s| :: !Masked(s, k)
  }

  /** Without masking, the last retained entry has the access of the last entry. */
  lemma {:induction false} SameAccess(s: seq<Entry>, n: nat, q: Path)
    requires AncestorsFirst(s) && n <= |s| && forall k | 0 <= k < |s| :: !Masked(s, k)
    ensures AccessAt(s, LastWithin(s, n, q, true)) == AccessAt(s, LastWithin(s, n, q, false))
    decreases n
  {
    hide Within, Repeats, Masked;
    LastWithinSpec(s, n, q, false);
    var i := LastWithin(s, n, q, false);
    if i < 0 {
      LastWithinSkips(s, n, 0, q, true);
    } else if Repeats(s, i) {
      LastWithinSkips(s, n, i, q, true);
      LastWithinBelow(s, i, i, q, true);
      SameAccess(s, i, s[i].path);
      ParentAccess(s, i);
    } else {
      LastWithinSkips(s, n, i + 1, q, true);
    }
  }

  lemma NearestContains(s: seq<Entry>, u: nat, i: nat)
    requires i < |s| && NearestVisible(s, u, i)
    ensures u < i && Within(s[u].path, s[i].path)
  {
  }

  lemma ParentAccess(s: seq<Entry>, i: nat)
    requires i < |s| && Repeats(s, i) && !Masked(s, i)
    ensures AccessAt(s, LastWithin(s, i, s[i].path, false)) == Some(s[i].access)
  {
    hide Within;
    LastWithinSpec(s, i, s[i].path, false);
    var u: nat :| NearestVisible(s, u, i) && s[u].access == s[i].access;
    NearestContains(s, u, i);
    assert Parent(s, LastWithin(s, i, s[i].path, false), i);
  }

  /** A masked entry and its parent cannot both keep their access. */
  lemma MaskedDiffers(s: seq<Entry>, k: nat)
    requires StrictlyAscending(PathKey, s) && k < |s| && Masked(s, k)
    ensures exists q :: Lookup(Kept(s, |s|), q) != Lookup(s, q)
  {
    SortedAncestorsFirst(s);
    var u: nat, p: nat :| NearestVisible(s, u, k) && Parent(s, p, k) && s[u].access == s[k].access &&
        s[p].access != s[k].access;
    OwnLookup(s, k);
    OwnLookup(s, p);
    RepeatingFollowsParent(s, k, p);
  }

  lemma RepeatingFollowsParent(s: seq<Entry>, k: nat, p: nat)
    requires StrictlyAscending(PathKey, s) && k < |s| && Repeats(s, k) && Parent(s, p, k)
    ensures Lookup(Kept(s, |s|), s[k].path) == Lookup(Kept(s, |s|), s[p].path)
  {
    hide Within, Repeats, LastWithin, Kept, Lookup, StrictlyAscending;
    SortedAncestorsFirst(s);
    var top, up := s[k].path, s[p].path;
    KeptLookup(s, top);
    LastWithinSkips(s, |s|, k, top, true);
    LastWithinSkips(s, k, p + 1, top, true);
    LastWithinBelow(s, p + 1, p, top, true);
    KeptLookup(s, up);
    LastWithinSkips(s, |s|, p + 1, up, true);
  }

  lemma OwnLookup(s: seq<Entry>, k: nat)
    requires AncestorsFirst(s) && k < |s|
    ensures Lookup(s, s[k].path) == Some(s[k].access)
  {
    LookupIsLast(s, s[k].path);
    LastWithinSkips(s, |s|, k + 1, s[k].path, false);
  }

  // ------------------------------------------------ the lookup at one entry

  /** Entry x is the innermost ancestor of entry k that the pass retains. */
  ghost predicate RetainedParent(s: seq<Entry>, x: nat, k: nat)
    requires k < |s|
  {
    && x < k && !Repeats(s, x) && Within(s[x].path, s[k].path)
    && forall y | x < y < k && !Repeats(s, y) :: !Within(s[y].path, s[k].path)
  }

  /** The pass drops entry k, but its innermost retained ancestor has another access. */
  ghost predicate OverruledAt(s: seq<Entry>, k: nat)
    requires k < |s|
  {
    Repeats(s, k) && exists x: nat :: RetainedParent(s, x, k) && s[x].access != s[k].access
  }

  ghost predicate Overruled(es: seq<Entry>, e: Entry) {
    var s := SortBy(PathKey, es);
    exists k | 0 <= k < |s| :: s[k] == e && OverruledAt(s, k)
  }

  lemma RetainedParentDecides(s: seq<Entry>, x: nat, k: nat)
    requires StrictlyAscending(PathKey, s) && k < |s| && Repeats(s, k) && RetainedParent(s, x, k)
    ensures x < k && Lookup(Kept(s, |s|), s[k].path) == Some(s[x].access)
  {
    hide Within, Repeats, StrictlyAscending, Lookup, Kept;
    SortedAncestorsFirst(s);
    KeptLookup(s, s[k].path);
    LastWithinSkips(s, |s|, k, s[k].path, true);
    LastWithinSkips(s, k, x + 1, s[k].path, true);
  }

  lemma RetainedParentExists(s: seq<Entry>, k: nat) returns (x: nat)
    requires k < |s| && Repeats(s, k)
    ensures x < k && RetainedParent(s, x, k)
  {
    hide Within, Repeats, Visible, NearestVisible;
    var u := RepeatedAncestor(s, k);
    NearestContains(s, u, k);
    var t := RetainedAncestor(s, u);
    RetainedContains(s, t, u, s[k].path);
    LastWithinSpec(s, k, s[k].path, true);
    x := LastWithin(s, k, s[k].path, true);
  }

  lemma RetainedContains(s: seq<Entry>, t: nat, k: nat, p: Path)
    requires t <= k < |s| && (t < k ==> Visible(s, t, k)) && Within(s[k].path, p)
    ensures Within(s[t].path, p)
  {
    hide Within;
    if t < k { WithinTransitive(s[t].path, s[k].path, p); }
  }

  /** The pass keeps the access at an entry's own path exactly when the entry is not overruled. */
  lemma KeepsAtIff(es: seq<Entry>, e: Entry)
    requires DistinctPaths(es) && e in es
    ensures Lookup(Normalize(es), e.path) == Some(e.access) <==> !Overruled(es, e)
  {
    hide Within, Repeats, OverruledAt, StrictlyAscending, RetainedParent, Lookup, Kept;
    SortEntries(es);
    var s := SortBy(PathKey, es);
    var k :| 0 <= k < |s| && s[k] == e;
    assert forall i | 0 <= i < |s| && s[i] == e :: i == k;
    KeepsIndexIff(s, k);
  }

  lemma KeepsIndexIff(s: seq<Entry>, k: nat)
    requires StrictlyAscending(PathKey, s) && k < |s|
    ensures Lookup(Kept(s, |s|), s[k].path) == Some(s[k].access) <==> !OverruledAt(s, k)
  {
    hide Within, Repeats, StrictlyAscending, RetainedParent, Lookup, Kept;
    if Repeats(s, k) {
      var x := RetainedParentExists(s, k);
      forall y: nat | RetainedParent(s, y, k) ensures y < k && Lookup(Kept(s, |s|), s[k].path) == Some(s[y].access) {
        RetainedParentDecides(s, y, k);
      }
    } else {
      SortedAncestorsFirst(s);
      KeptLookup(s, s[k].path);
      OwnWithin(s[k].path);
      LastWithinSkips(s, |s|, k + 1, s[k].path, true);
    }
  }

  // ----------------------------------------------- the lookup at every path

  /** Normalization keeps the lookup of every path exactly when no entry is masked. */
  lemma NormalizeFaithfulIff(es: seq<Entry>)
    requires DistinctPaths(es)
    ensures (forall q :: Lookup(Normalize(es), q) == Lookup(es, q)) <==> NothingMasked(es)
  {
    SortEntries(es);
    var s := SortBy(PathKey, es);
    forall q ensures Lookup(s, q) == Lookup(es, q) { LookupOrderFree(s, es, q); }
    if NothingMasked(es) {
      forall q ensures Lookup(Normalize(es), q) == Lookup(es, q) {
        KeptLookup(s, q);
        LookupIsLast(s, q);
        SameAccess(s, |s|, q);
      }
    } else {
      var k :| 0 <= k < |s| && Masked(s, k);
      MaskedDiffers(s, k);
    }
  }
}
