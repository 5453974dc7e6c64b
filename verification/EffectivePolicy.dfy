// What the effective policy of a Launcher is (allowed_root_policy.go:257-299): the
// paths all three levels cover, each with the meet of the three accesses.
module EffectivePolicy {
  import opened Paths
  import opened Policy
  import opened Normalization
  import opened CanonicalForm
  import opened Composition
  import opened SessionPolicy
  import opened StoredRoots

  /** The Launcher's own level: an inherit Launcher narrows nothing. */
  ghost predicate OwnCovers(l: Launcher, p: Path) {
    l.scope == Restricted ==> Valid(l.roots) && Covered(l.roots, p)
  }

  /** A Launcher is unavailable exactly if it is restricted and one of its roots is not
      under both the global and its Principal's roots. An available policy covers
      exactly the paths under both and, for a restricted Launcher, under its own roots. */
  lemma EffectiveCovers(s: State, id: string)
    requires Schema(s) && id in s.launchers
    ensures var l := s.launchers[id];
            var stored := s.principals[l.owner];
            && (EffectiveRoots(s, id).None? <==>
                l.scope == Restricted && exists e | e in l.roots :: !Under(s.global, stored, e.path))
            && (EffectiveRoots(s, id).Some? ==>
                forall p :: Covered(EffectiveRoots(s, id).value, p) <==> Under(s.global, stored, p) && OwnCovers(l, p))
  {
    hide Covered, Compose, Rows, Valid;
    var l := s.launchers[id];
    var stored := s.principals[l.owner];
    forall p ensures Covered(Ceiling(s, l.owner), p) <==> Under(s.global, stored, p) {
      CeilingCovers(s.global, stored, p);
    }
    ComposeValid(s.global, stored);
    forall p ensures Covered(Compose(Ceiling(s, l.owner), l.roots), p) <==>
                     Valid(l.roots) && Covered(Ceiling(s, l.owner), p) && Covered(l.roots, p) {
      CeilingCovers(Ceiling(s, l.owner), l.roots, p);
    }
  }

  /** The access the three levels give together. */
  ghost function Granted(s: State, id: string, p: Path): Option<Access>
    requires Schema(s) && id in s.launchers
  {
    var l := s.launchers[id];
    var above := MeetLookup(Lookup(s.global, p), Lookup(s.principals[l.owner], p));
    if l.scope == Inherit then above else MeetLookup(above, Lookup(l.roots, p))
  }

  /** Global, Principal and own rows are all well formed. */
  ghost predicate LevelsValid(s: State, id: string)
    requires Schema(s) && id in s.launchers
  {
    var l := s.launchers[id];
    Valid(s.global) && Valid(s.principals[l.owner]) && Valid(l.roots)
  }

  /** In a contiguous order the policy looks up to the meet of the three levels everywhere. */
  lemma EffectiveIsMeet(s: State, id: string)
    requires Schema(s) && id in s.launchers && EffectiveRoots(s, id).Some? && LevelsValid(s, id)
    requires Contiguous(s.global + s.principals[s.launchers[id].owner] + s.launchers[id].roots)
    ensures forall p :: Lookup(EffectiveRoots(s, id).value, p) == Granted(s, id, p)
  {
    hide Lookup, Covered, Compose, Rows, Valid, Contiguous, MeetLookup, HasPath;
    var l := s.launchers[id];
    var stored := s.principals[l.owner];
    var all := s.global + stored + l.roots;
    MembersHavePath(all);
    ComposeWithin(s.global, stored, all);
    if l.scope == Restricted { ComposeIsMeet(Ceiling(s, l.owner), l.roots, all); }
  }

  // ------------------------------------------ without the ordering hypothesis

  /** The candidate that governs path p is dropped while the innermost candidate kept
      around it has the other access. */
  ghost predicate Twisted(a: seq<Entry>, b: seq<Entry>, p: Path) {
    exists e :: Governs(CandidateList(a, b), e, p) && Overruled(CandidateList(a, b), e)
  }

  /** A composition gives path p the meet exactly if the candidate governing it is not overruled. */
  lemma ComposeIsMeetAtIff(a: seq<Entry>, b: seq<Entry>, p: Path)
    requires Valid(a) && Valid(b)
    ensures Lookup(Compose(a, b), p) == MeetLookup(Lookup(a, p), Lookup(b, p)) <==> !Twisted(a, b, p)
    ensures Lookup(Compose(a, b), p).Some? <==> Covered(a, p) && Covered(b, p)
  {
    hide Lookup, Covered, HasPath, CandidateList, Normalize, Overruled, Within, MeetLookup;
    var c := CandidateList(a, b);
    CandidateListIs(a, b);
    ComposeUnfolds(a, b);
    ComposeCovers(a, b, p);
    CandidatesMeet(a, b, p);
    LookupNone(Compose(a, b), p);
    LookupNone(c, p);
    NormalizeCovers(c, p);
    if Covered(c, p) {
      var e := LookupIsGoverned(c, p);
      forall d | Governs(c, d, p) ensures d == e { GovernorIsOne(c, d, e, p); }
      KeepsAtIff(c, e);
      NormalizedBelow(c, e, p);
    } else {
      NothingGoverns(c, p);
    }
  }

  lemma GovernorIsOne(es: seq<Entry>, d: Entry, e: Entry, p: Path)
    requires DistinctPaths(es) && Governs(es, d, p) && Governs(es, e, p)
    ensures d == e
  {
    hide Within;
    WithinAntisymmetric(d.path, e.path);
    SamePathSameEntry(es, d, e);
  }

  lemma NothingGoverns(es: seq<Entry>, p: Path)
    requires !Covered(es, p)
    ensures forall e :: !Governs(es, e, p)
  {
  }

  /** Below the entry that governs p, normalization gives p what it gives that entry. */
  lemma NormalizedBelow(c: seq<Entry>, e: Entry, p: Path)
    requires DistinctPaths(c) && Governs(c, e, p)
    ensures Lookup(Normalize(c), p) == Lookup(Normalize(c), e.path)
  {
    hide Within, Lookup, Normalize;
    NormalizeSelects(c);
    UnchangedBelow(Normalize(c), e.path, p);
  }

  lemma ComposeUnfolds(a: seq<Entry>, b: seq<Entry>)
    requires Valid(a) && Valid(b)
    ensures Compose(a, b) == Normalize(CandidateList(a, b))
  {
  }

  /** The exact condition at every path. For an inherit Launcher: the candidate of the
      Principal's ceiling is not overruled. For a restricted one the two compositions
      must both be right there, or the first one's error must be the only one and be
      hidden by a read-only own root, or both err and the second undoes the first. */
  lemma EffectiveIsMeetAtIff(s: State, id: string, p: Path)
    requires Schema(s) && id in s.launchers && EffectiveRoots(s, id).Some? && LevelsValid(s, id)
    ensures var l := s.launchers[id];
            var stored := s.principals[l.owner];
            Lookup(EffectiveRoots(s, id).value, p) == Granted(s, id, p) <==>
            if l.scope == Inherit then !Twisted(s.global, stored, p)
            else
              (Twisted(Compose(s.global, stored), l.roots, p) <==>
               Twisted(s.global, stored, p) && Lookup(l.roots, p) == Some(ReadWrite))
  {
    hide Lookup, Covered, Compose, Rows, Twisted, Valid;
    var l := s.launchers[id];
    var stored := s.principals[l.owner];
    var ceiling := Compose(s.global, stored);
    ComposeIsMeetAtIff(s.global, stored, p);
    ComposeValid(s.global, stored);
    KnownAccess(ceiling, p); KnownAccess(s.global, p); KnownAccess(stored, p); KnownAccess(l.roots, p);
    if l.scope == Restricted {
      ComposeIsMeetAtIff(ceiling, l.roots, p);
      ComposeValid(ceiling, l.roots);
      KnownAccess(Compose(ceiling, l.roots), p);
      if !Covered(s.global, p) || !Covered(stored, p) || !Covered(l.roots, p) { NotTwistedOutside(s, id, p); }
    }
  }

  /** Where a level covers nothing no candidate governs. */
  lemma NotTwistedOutside(s: State, id: string, p: Path)
    requires Schema(s) && id in s.launchers && LevelsValid(s, id)
    requires var l := s.launchers[id];
             !Covered(s.global, p) || !Covered(s.principals[l.owner], p) || !Covered(l.roots, p)
    ensures var l := s.launchers[id];
            var stored := s.principals[l.owner];
            && !Twisted(Compose(s.global, stored), l.roots, p)
            && (Twisted(s.global, stored, p) ==> Lookup(l.roots, p).None?)
  {
    hide Lookup, Covered, Compose, Rows, Valid;
    var l := s.launchers[id];
    var stored := s.principals[l.owner];
    ComposeValid(s.global, stored);
    ComposeCovers(s.global, stored, p);
    LookupNone(l.roots, p);
    NotTwisted(Compose(s.global, stored), l.roots, p);
    NotTwisted(s.global, stored, p);
  }

  lemma NotTwisted(a: seq<Entry>, b: seq<Entry>, p: Path)
    requires Valid(a) && Valid(b)
    ensures !Covered(a, p) || !Covered(b, p) ==> !Twisted(a, b, p)
  {
    hide Lookup, CandidateList, Within, Covered, Overruled;
    var c := CandidateList(a, b);
    CandidatesMeet(a, b, p);
    LookupNone(a, p); LookupNone(b, p); LookupNone(c, p);
    if !Covered(c, p) { NothingGoverns(c, p); }
  }
}
