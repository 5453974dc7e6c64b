// Composition of policy scopes (composeAllowedRootScopes).
module Composition {
  import opened Order
  import opened Paths
  import opened Policy
  import opened Normalization
  import opened CanonicalForm

  /** The access two scopes give together: authority needs both, read-only wins. */
  function MeetLookup(up: Option<Access>, down: Option<Access>): Option<Access> {
    if up.Some? && down.Some? then Some(Meet(up.value, down.value)) else None
  }

  predicate HasPath(es: seq<Entry>, p: Path) { exists e | e in es :: e.path == p }

  /** Entry e stands at a path of either scope and carries the meet of both lookups there. */
  ghost predicate Candidate(a: seq<Entry>, b: seq<Entry>, e: Entry) {
    (HasPath(a, e.path) || HasPath(b, e.path)) && Some(e.access) == MeetLookup(Lookup(a, e.path), Lookup(b, e.path))
  }

  /** The entries composed before normalization, in whatever order a map iteration yields. */
  ghost predicate Candidates(a: seq<Entry>, b: seq<Entry>, c: seq<Entry>) {
    DistinctPaths(c) && forall e :: e in c <==> Candidate(a, b, e)
  }

  ghost function CandidatesAt(a: seq<Entry>, b: seq<Entry>, at: seq<Entry>): seq<Entry> {
    if at == [] then []
    else
      var rest := CandidatesAt(a, b, at[1..]);
      var p := at[0].path;
      var m := MeetLookup(Lookup(a, p), Lookup(b, p));
      if m.None? || HasPath(at[1..], p) then rest else [Entry(p, m.value)] + rest
  }

  /** One listing of the candidates; NormalizeOrderFree makes the choice immaterial. */
  ghost function CandidateList(a: seq<Entry>, b: seq<Entry>): seq<Entry> { CandidatesAt(a, b, a + b) }

  ghost function Compose(a: seq<Entry>, b: seq<Entry>): seq<Entry> {
    if Valid(a) && Valid(b) then Normalize(CandidateList(a, b)) else []
  }

  lemma {:induction false} CandidatesAtElements(a: seq<Entry>, b: seq<Entry>, at: seq<Entry>)
    ensures var c := CandidatesAt(a, b, at);
            DistinctPaths(c) && forall e ::
                e in c <==> HasPath(at, e.path) && Some(e.access) == MeetLookup(Lookup(a, e.path), Lookup(b, e.path))
  {
    hide Lookup, Meet;
    if at != [] {
      CandidatesAtElements(a, b, at[1..]);
      var c, rest := CandidatesAt(a, b, at), CandidatesAt(a, b, at[1..]);
      var p := at[0].path;
      assert at == [at[0]] + at[1..];
      forall e: Entry ensures HasPath(at, e.path) <==> e.path == p || HasPath(at[1..], e.path) {
        if HasPath(at[1..], e.path) { var d :| d in at[1..] && d.path == e.path; assert d in at; }
        if e.path == p { assert at[0] in at; }
      }
      if !HasPath(at[1..], p) {
        forall i | 0 <= i < |rest| ensures rest[i].path != p { assert rest[i] in rest; }
      }
    }
  }

  lemma CandidateListIs(a: seq<Entry>, b: seq<Entry>)
    ensures Candidates(a, b, CandidateList(a, b))
  {
    hide Lookup;
    CandidatesAtElements(a, b, a + b);
    forall p ensures HasPath(a + b, p) <==> HasPath(a, p) || HasPath(b, p) { HasPathConcat(a, b, p); }
  }

  lemma HasPathConcat(a: seq<Entry>, b: seq<Entry>, p: Path)
    ensures HasPath(a + b, p) <==> HasPath(a, p) || HasPath(b, p)
  {
    if e :| e in a && e.path == p { assert e in a + b; }
    if e :| e in b && e.path == p { assert e in a + b; }
  }

  /** Normalization sees the entries, not their order. */
  lemma NormalizeOrderFree(a: seq<Entry>, b: seq<Entry>)
    requires DistinctPaths(a) && DistinctPaths(b) && forall e :: e in a <==> e in b
    ensures Normalize(a) == Normalize(b)
  {
    hide Kept, AncestorsFirst;
    SortEntries(a);
    SortEntries(b);
    StrictlyAscendingSet(PathKey, SortBy(PathKey, a), SortBy(PathKey, b));
  }

  /** composeAllowedRootScopes: the candidates are collected in an arbitrary order. */
  method ComposeScopes(ceiling: seq<Entry>, narrowing: seq<Entry>) returns (composed: seq<Entry>)
    ensures composed == Compose(ceiling, narrowing)
  {
    hide Lookup, Normalize, Collected, HasPath, Candidate, Covered, Governs, CandidateList;
    var err := ValidateCanonical(ceiling);
    if err.Some? { return []; }
    err := ValidateCanonical(narrowing);
    if err.Some? { return []; }
    if |ceiling| == 0 || |narrowing| == 0 {
      ComposeEmpty(ceiling, narrowing);
      return [];
    }
    var candidate := (set e | e in ceiling :: e.path) + (set e | e in narrowing :: e.path);
    PathSets(ceiling, narrowing);
    var entries: seq<Entry> := [];
    ghost var all := candidate;
    ghost var done: set<Path> := {};
    CollectedNothing(ceiling, narrowing, done);
    while candidate != {}
      invariant forall p :: p in all <==> p in done || p in candidate
      invariant forall p | p in candidate :: p !in done
      invariant Collected(ceiling, narrowing, done, entries)
      decreases candidate
    {
      var path :| path in candidate;
      CollectStep(ceiling, narrowing, done, entries, path);
      candidate := candidate - {path};
      done := done + {path};
      var up := LookupAccess(ceiling, path);
      if up.None? { continue; }
      var down := LookupAccess(narrowing, path);
      if down.None? { continue; }
      entries := entries + [Entry(path, Meet(up.value, down.value))];
    }
    CollectedAll(ceiling, narrowing, done, entries);
    CandidateListIs(ceiling, narrowing);
    NormalizeOrderFree(entries, CandidateList(ceiling, narrowing));
    composed := NormalizeEntries(entries);
  }

  /** The candidates at the paths looked at so far. */
  ghost predicate Collected(a: seq<Entry>, b: seq<Entry>, done: set<Path>, entries: seq<Entry>) {
    DistinctPaths(entries) && forall e ::
        e in entries <==> e.path in done && Some(e.access) == MeetLookup(Lookup(a, e.path), Lookup(b, e.path))
  }

  lemma PathSets(a: seq<Entry>, b: seq<Entry>)
    ensures forall p :: p in (set e | e in a :: e.path) + (set e | e in b :: e.path) <==> HasPath(a, p) || HasPath(b, p)
  {
  }

  lemma CollectedNothing(a: seq<Entry>, b: seq<Entry>, done: set<Path>)
    requires done == {}
    ensures Collected(a, b, done, [])
  {
  }

  lemma CollectStep(a: seq<Entry>, b: seq<Entry>, done: set<Path>, entries: seq<Entry>, path: Path)
    requires Collected(a, b, done, entries) && path !in done
    ensures var m := MeetLookup(Lookup(a, path), Lookup(b, path));
            Collected(a, b, done + {path}, if m.None? then entries else entries + [Entry(path, m.value)])
  {
    hide Lookup;
    var m := MeetLookup(Lookup(a, path), Lookup(b, path));
    assert forall i | 0 <= i < |entries| :: entries[i] in entries;
    forall e ensures (e in entries || (m.Some? && e == Entry(path, m.value))) <==>
                     e.path in done + {path} && Some(e.access) == MeetLookup(Lookup(a, e.path), Lookup(b, e.path)) {
    }
  }

  lemma CollectedAll(a: seq<Entry>, b: seq<Entry>, done: set<Path>, entries: seq<Entry>)
    requires Collected(a, b, done, entries) && forall p :: p in done <==> HasPath(a, p) || HasPath(b, p)
    ensures DistinctPaths(entries) && forall e :: e in entries <==> Candidate(a, b, e)
  {
    hide Lookup, HasPath;
  }

  lemma ComposeEmpty(a: seq<Entry>, b: seq<Entry>)
    requires a == [] || b == []
    ensures Compose(a, b) == []
  {
    var c := CandidateList(a, b);
    CandidateListIs(a, b);
    forall e ensures !Candidate(a, b, e) {}
    assert forall i | 0 <= i < |c| :: c[i] in c;
  }

  // -------------------------------------------------- what composition means

  lemma CandidateOf(a: seq<Entry>, b: seq<Entry>, p: Path) returns (e: Entry)
    requires DistinctPaths(a) && DistinctPaths(b) && Covered(a, p) && Covered(b, p)
    ensures Candidate(a, b, e) && Within(e.path, p)
    ensures Some(e.access) == MeetLookup(Lookup(a, p), Lookup(b, p))
    ensures forall d | (HasPath(a, d) || HasPath(b, d)) && Within(d, p) :: Within(d, e.path)
  {
    hide Within, Covered, Lookup;
    DeepestIndexGoverns(a, p);
    DeepestIndexGoverns(b, p);
    LookupNone(a, p); LookupNone(b, p);
    var x := LookupIsGoverned(a, p);
    var y := LookupIsGoverned(b, p);
    WithinChain(x.path, y.path, p);
    OwnWithin(x.path); OwnWithin(y.path);
    var q := if Within(x.path, y.path) then y.path else x.path;
    GovernsBetween(a, x, q, p);
    GovernsBetween(b, y, q, p);
    LookupGoverned(a, x, q);
    LookupGoverned(b, y, q);
    e := Entry(q, Meet(x.access, y.access));
    forall d | (HasPath(a, d) || HasPath(b, d)) && Within(d, p) ensures Within(d, q) {
      if Within(d, x.path) && q == y.path { WithinTransitive(d, x.path, q); }
      if Within(d, y.path) && q == x.path { WithinTransitive(d, y.path, q); }
    }
  }

  lemma LookupNone(es: seq<Entry>, p: Path)
    ensures Lookup(es, p).None? <==> !Covered(es, p)
  {
    DeepestIndexGoverns(es, p);
  }

  /** Before normalization the candidates look up, at every path, to the meet. */
  lemma CandidatesMeet(a: seq<Entry>, b: seq<Entry>, p: Path)
    requires DistinctPaths(a) && DistinctPaths(b)
    ensures Lookup(CandidateList(a, b), p) == MeetLookup(Lookup(a, p), Lookup(b, p))
  {
    hide Within, Lookup, CandidateList;
    CandidateListIs(a, b);
    var c := CandidateList(a, b);
    LookupNone(a, p); LookupNone(b, p); LookupNone(c, p);
    if Covered(a, p) && Covered(b, p) {
      var e := CandidateOf(a, b, p);
      assert Governs(c, e, p);
      LookupGoverned(c, e, p);
    } else if Covered(c, p) {
      var e :| e in c && Within(e.path, p);
      CandidateCovered(a, b, e, p);
    }
  }

  lemma CandidateCovered(a: seq<Entry>, b: seq<Entry>, e: Entry, p: Path)
    requires Candidate(a, b, e) && Within(e.path, p)
    ensures Covered(a, p) && Covered(b, p)
  {
    hide Within, Lookup;
    LookupNone(a, e.path); LookupNone(b, e.path);
    var x :| x in a && Within(x.path, e.path);
    var y :| y in b && Within(y.path, e.path);
    WithinTransitive(x.path, e.path, p);
    WithinTransitive(y.path, e.path, p);
  }

  /** Composition is the pointwise meet exactly when no candidate is masked. */
  lemma ComposeIsMeetIff(a: seq<Entry>, b: seq<Entry>)
    requires Valid(a) && Valid(b)
    ensures (forall p :: Lookup(Compose(a, b), p) == MeetLookup(Lookup(a, p), Lookup(b, p)))
            <==> NothingMasked(CandidateList(a, b))
  {
    hide Lookup, CandidateList, NothingMasked, Normalize, MeetLookup;
    CandidateListIs(a, b);
    forall p ensures Lookup(CandidateList(a, b), p) ==
        MeetLookup(Lookup(a, p), Lookup(b, p)) { CandidatesMeet(a, b, p); }
    NormalizeFaithfulIff(CandidateList(a, b));
  }

  lemma CandidatesContiguous(a: seq<Entry>, b: seq<Entry>, all: seq<Entry>)
    requires Contiguous(all) && forall e | e in a || e in b :: HasPath(all, e.path)
    ensures Contiguous(CandidateList(a, b)) && forall e | e in CandidateList(a, b) :: HasPath(all, e.path)
  {
    hide Lookup, CandidateList, Contiguous;
    CandidateListIs(a, b);
    var c := CandidateList(a, b);
    forall e | e in c ensures exists d :: d in all && d.path == e.path {
      assert Candidate(a, b, e);
    }
    ContiguousSubset(c, all);
  }

  /** In a contiguous order composition is the pointwise meet. */
  lemma ComposeIsMeet(a: seq<Entry>, b: seq<Entry>, all: seq<Entry>)
    requires Valid(a) && Valid(b) && Contiguous(all) && forall e | e in a || e in b :: HasPath(all, e.path)
    ensures forall p :: Lookup(Compose(a, b), p) == MeetLookup(Lookup(a, p), Lookup(b, p))
  {
    hide Lookup, CandidateList, NothingMasked, Normalize, Contiguous, MeetLookup;
    CandidateListIs(a, b);
    CandidatesContiguous(a, b, all);
    NormalizeFaithful(CandidateList(a, b));
    ComposeIsMeetIff(a, b);
  }

  /** The result is a valid, sorted scope whose paths come from its two inputs. */
  lemma ComposeValid(a: seq<Entry>, b: seq<Entry>)
    ensures var c := Compose(a, b);
            Valid(c) && StrictlyAscending(PathKey, c) && AncestorsFirst(c) && forall e | e in c ::
                HasPath(a + b, e.path)
  {
    hide Lookup, CandidateList, Normalize, HasPath;
    if Valid(a) && Valid(b) {
      CandidateListIs(a, b);
      var l := CandidateList(a, b);
      NormalizeSelects(l);
      forall e | e in Compose(a, b) ensures ValidEntry(e) && HasPath(a + b, e.path) {
        assert e in l;
        HasPathConcat(a, b, e.path);
        CandidateValid(a, b, e);
      }
    }
  }

  lemma CandidateValid(a: seq<Entry>, b: seq<Entry>, e: Entry)
    requires Valid(a) && Valid(b) && Candidate(a, b, e)
    ensures ValidEntry(e)
  {
  }

  /** Composition covers exactly what both scopes cover; no ordering hypothesis. */
  lemma ComposeCovers(a: seq<Entry>, b: seq<Entry>, p: Path)
    requires Valid(a) && Valid(b)
    ensures Covered(Compose(a, b), p) <==> Covered(a, p) && Covered(b, p)
  {
    hide Lookup, CandidateList, Normalize, Covered;
    CandidatesMeet(a, b, p);
    NormalizeCovers(CandidateList(a, b), p);
    LookupNone(a, p); LookupNone(b, p); LookupNone(CandidateList(a, b), p);
  }

  /** Composition does not depend on the order of either input. */
  lemma ComposeOrderFree(a: seq<Entry>, a': seq<Entry>, b: seq<Entry>, b': seq<Entry>)
    requires DistinctPaths(a) && DistinctPaths(a') && DistinctPaths(b) && DistinctPaths(b')
    requires (forall e :: e in a <==> e in a') && (forall e :: e in b <==> e in b')
    ensures Compose(a, b) == Compose(a', b')
  {
    hide Lookup, CandidateList, Normalize;
    CandidateListIs(a, b);
    CandidateListIs(a', b');
    forall e ensures Candidate(a, b, e) <==> Candidate(a', b', e) {
      LookupOrderFree(a, a', e.path);
      LookupOrderFree(b, b', e.path);
    }
    NormalizeOrderFree(CandidateList(a, b), CandidateList(a', b'));
  }

  /** Which scope is the ceiling does not matter. */
  lemma ComposeCommutes(a: seq<Entry>, b: seq<Entry>)
    ensures Compose(a, b) == Compose(b, a)
  {
    hide Lookup, CandidateList, Normalize;
    CandidateListIs(a, b);
    CandidateListIs(b, a);
    forall e ensures Candidate(a, b, e) <==> Candidate(b, a, e) {}
    NormalizeOrderFree(CandidateList(a, b), CandidateList(b, a));
  }

  /** A scope composed with itself is its normal form. */
  lemma ComposeSelf(a: seq<Entry>)
    requires Valid(a)
    ensures Compose(a, a) == Normalize(a)
  {
    hide Lookup, CandidateList, Normalize, HasPath;
    CandidateListIs(a, a);
    MembersHavePath(a);
    forall e ensures Candidate(a, a, e) <==> e in a {
      if e in a { LookupOwnPath(a, e); }
      if HasPath(a, e.path) {
        var d := EntryAt(a, e.path);
        LookupOwnPath(a, d);
        assert ValidEntry(d);
      }
    }
    NormalizeOrderFree(CandidateList(a, a), a);
  }

  lemma EntryAt(es: seq<Entry>, p: Path) returns (e: Entry)
    requires HasPath(es, p)
    ensures e in es && e.path == p
  {
    e :| e in es && e.path == p;
  }

  /** The three-level composition does not depend on how it is bracketed. */
  lemma ComposeAssociates(a: seq<Entry>, b: seq<Entry>, c: seq<Entry>)
    requires Valid(a) && Valid(b) && Valid(c) && Contiguous(a + b + c)
    ensures Compose(Compose(a, b), c) == Compose(a, Compose(b, c))
  {
    hide Lookup, CandidateList, Normalize, Compose, Contiguous, HasPath, MeetLookup;
    var all := a + b + c;
    ComposeWithin(a, b, all);
    ComposeWithin(b, c, all);
    var ab, bc := Compose(a, b), Compose(b, c);
    assert forall e | e in a || e in c :: HasPath(all, e.path) by { MembersHavePath(all); }
    ComposeIsMeet(ab, c, all);
    ComposeIsMeet(a, bc, all);
    forall p ensures Lookup(CandidateList(ab, c), p) == Lookup(CandidateList(a, bc), p) {
      CandidatesMeet(ab, c, p);
      CandidatesMeet(a, bc, p);
      MeetAssociates(Lookup(a, p), Lookup(b, p), Lookup(c, p));
    }
    SameLookupsSameNormalForm(ab, c, a, bc, all);
  }

  lemma MembersHavePath(all: seq<Entry>)
    ensures forall e | e in all :: HasPath(all, e.path)
  {
  }

  lemma MeetAssociates(x: Option<Access>, y: Option<Access>, z: Option<Access>)
    ensures MeetLookup(MeetLookup(x, y), z) == MeetLookup(x, MeetLookup(y, z))
  {
  }

  lemma ComposeWithin(a: seq<Entry>, b: seq<Entry>, all: seq<Entry>)
    requires Valid(a) && Valid(b) && Contiguous(all) && forall e | e in a || e in b :: e in all
    ensures var ab := Compose(a, b);
            && Valid(ab)
            && (forall e | e in ab :: HasPath(all, e.path))
            && (forall p :: Lookup(ab, p) == MeetLookup(Lookup(a, p), Lookup(b, p)))
  {
    hide Lookup, CandidateList, Normalize, Compose, Contiguous, MeetLookup;
    ComposeValid(a, b);
    ComposeIsMeet(a, b, all);
  }

  lemma SameLookupsSameNormalForm(a: seq<Entry>, b: seq<Entry>, c: seq<Entry>, d: seq<Entry>, all: seq<Entry>)
    requires Valid(a) && Valid(b) && Valid(c) && Valid(d) && Contiguous(all)
    requires forall e | e in a || e in b || e in c || e in d :: HasPath(all, e.path)
    requires forall p :: Lookup(CandidateList(a, b), p) == Lookup(CandidateList(c, d), p)
    ensures Compose(a, b) == Compose(c, d)
  {
    hide Lookup, CandidateList, Normalize, Contiguous, HasPath, ParentsDecide;
    CandidateListIs(a, b);
    CandidateListIs(c, d);
    CandidatesContiguous(a, b, all);
    CandidatesContiguous(c, d, all);
    ContiguousDecides(CandidateList(a, b));
    ContiguousDecides(CandidateList(c, d));
    CanonicalFormUnique(CandidateList(a, b), CandidateList(c, d));
  }
}
