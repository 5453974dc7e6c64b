// Policy entries, their validation and their most-specific lookup (allowed_root_policy.go).
module Policy {
  import opened Order
  import opened Paths

  datatype Option<+T> = None | Some(value: T)

  /** Access modes; Unknown stands for every other stored spelling. */
  datatype Access = ReadWrite | ReadOnly | Unknown(spelling: string)

  datatype Entry = Entry(path: Path, access: Access)

  function PathKey(e: Entry): seq<int> { Codes(e.path) }

  function Meet(a: Access, b: Access): Access {
    if a == ReadOnly || b == ReadOnly then ReadOnly else ReadWrite
  }

  // -------------------------------------------------------- validation

  datatype EntryError =
    | NotCanonical(path: Path)
    | UnknownAccess(path: Path)
    | Conflicting(path: Path)
    | Duplicate(path: Path)

  ghost predicate DistinctPaths(es: seq<Entry>) {
    forall i, j | 0 <= i < j < |es| :: es[i].path != es[j].path
  }

  ghost predicate ValidEntry(e: Entry) { Canonical(e.path) && !e.access.Unknown? }

  ghost predicate Valid(es: seq<Entry>) {
    DistinctPaths(es) && forall e | e in es :: ValidEntry(e)
  }

  /** What is wrong with entry e after the valid entries `before`. */
  ghost predicate Faulty(before: seq<Entry>, e: Entry, err: EntryError) {
    match err
    case NotCanonical(p) => p == e.path && !Canonical(p)
    case UnknownAccess(p) => p == e.path && Canonical(p) && e.access.Unknown?
    case Conflicting(p) => p == e.path && ValidEntry(e) && exists d | d in before :: d.path == p && d.access != e.access
    case Duplicate(p) => p == e.path && ValidEntry(e) && e in before
  }

  /** validateCanonicalAllowedRootEntries: the first faulty entry decides. */
  method ValidateCanonical(es: seq<Entry>) returns (err: Option<EntryError>)
    ensures err.None? <==> Valid(es)
    ensures err.Some? ==> exists i | 0 <= i < |es| :: Valid(es[..i]) && Faulty(es[..i], es[i], err.value)
  {
    var seen: map<Path, Access> := map[];
    for i := 0 to |es|
      invariant Valid(es[..i])
      invariant forall p :: p in seen <==> exists k | 0 <= k < i :: es[k].path == p
      invariant forall k | 0 <= k < i :: seen[es[k].path] == es[k].access
    {
      var e := es[i];
      assert es[..i + 1] == es[..i] + [e];
      assert e in es;
      if !Canonical(e.path) {
        assert Faulty(es[..i], e, NotCanonical(e.path));
        return Some(NotCanonical(e.path));
      }
      if e.access.Unknown? {
        assert Faulty(es[..i], e, UnknownAccess(e.path));
        return Some(UnknownAccess(e.path));
      }
      if e.path in seen {
        var k :| 0 <= k < i && es[k].path == e.path;
        assert es[k] in es[..i];
        if seen[e.path] != e.access {
          assert Faulty(es[..i], e, Conflicting(e.path));
          return Some(Conflicting(e.path));
        }
        assert es[k] == e;
        assert Faulty(es[..i], e, Duplicate(e.path));
        return Some(Duplicate(e.path));
      }
      seen := seen[e.path := e.access];
    }
    assert es[..|es|] == es;
    return None;
  }

  // ------------------------------------------------------------ lookup

  /** Index of the entry the lookup settles on, -1 for none. */
  function DeepestIndex(es: seq<Entry>, p: Path): (i: int)
    ensures -1 <= i < |es|
    ensures i >= 0 ==> Within(es[i].path, p)
  {
    if es == [] then -1
    else
      var n := |es| - 1;
      var best := DeepestIndex(es[..n], p);
      if Within(es[n].path, p) && (best < 0 || Within(es[best].path, es[n].path)) then n else best
  }

  /** The denotation of a scope: the access it gives to path p, None for no authority. */
  function Lookup(es: seq<Entry>, p: Path): Option<Access> {
    var i := DeepestIndex(es, p);
    if i < 0 then None else Some(es[i].access)
  }

  /** Entry e is the most specific entry of es containing p. */
  ghost predicate Governs(es: seq<Entry>, e: Entry, p: Path) {
    e in es && Within(e.path, p) && forall d | d in es && Within(d.path, p) :: Within(d.path, e.path)
  }

  ghost predicate Covered(es: seq<Entry>, p: Path) {
    exists e | e in es :: Within(e.path, p)
  }

  lemma {:induction false} DeepestIndexGoverns(es: seq<Entry>, p: Path)
    ensures DeepestIndex(es, p) < 0 <==> !Covered(es, p)
    ensures DeepestIndex(es, p) >= 0 ==> Governs(es, es[DeepestIndex(es, p)], p)
  {
    if es != [] {
      var n := |es| - 1;
      var best := DeepestIndex(es[..n], p);
      DeepestIndexGoverns(es[..n], p);
      assert es == es[..n] + [es[n]];
      if Within(es[n].path, p) && best >= 0 {
        WithinChain(es[best].path, es[n].path, p);
        forall d | d in es && Within(d.path, p) ensures Within(d.path, es[DeepestIndex(es, p)].path) {
          if d in es[..n] && Within(es[best].path, es[n].path) { WithinTransitive(d.path, es[best].path, es[n].path); }
        }
      }
    }
  }

  /** lookupAllowedRootAccess. */
  method LookupAccess(es: seq<Entry>, source: Path) returns (access: Option<Access>)
    ensures access == Lookup(es, source)
    ensures access.None? <==> !Covered(es, source)
    ensures access.Some? ==> exists e :: Governs(es, e, source) && e.access == access.value
  {
    var best := -1;
    for i := 0 to |es|
      invariant best == DeepestIndex(es[..i], source)
    {
      assert es[..i + 1][..i] == es[..i];
      if Within(es[i].path, source) && (best < 0 || Within(es[best].path, es[i].path)) {
        best := i;
      }
    }
    assert es[..|es|] == es;
    DeepestIndexGoverns(es, source);
    if best < 0 { return None; }
    return Some(es[best].access);
  }

  /** With distinct paths the most specific entry is unique, so lookup does not depend on order. */
  lemma LookupGoverned(es: seq<Entry>, e: Entry, p: Path)
    requires DistinctPaths(es) && Governs(es, e, p)
    ensures Lookup(es, p) == Some(e.access)
  {
    DeepestIndexGoverns(es, p);
    var d := es[DeepestIndex(es, p)];
    WithinAntisymmetric(d.path, e.path);
    var i :| 0 <= i < |es| && es[i] == e;
  }

  lemma LookupIsGoverned(es: seq<Entry>, p: Path) returns (e: Entry)
    requires Lookup(es, p).Some?
    ensures Governs(es, e, p) && Lookup(es, p) == Some(e.access)
  {
    DeepestIndexGoverns(es, p);
    e := es[DeepestIndex(es, p)];
  }

  lemma LookupOrderFree(a: seq<Entry>, b: seq<Entry>, p: Path)
    requires DistinctPaths(a) && DistinctPaths(b) && forall e :: e in a <==> e in b
    ensures Lookup(a, p) == Lookup(b, p)
  {
    DeepestIndexGoverns(a, p);
    DeepestIndexGoverns(b, p);
    if Lookup(a, p).Some? {
      var e := LookupIsGoverned(a, p);
      LookupGoverned(b, e, p);
    }
  }

  /** An entry's own path is governed by that entry. */
  lemma LookupOwnPath(es: seq<Entry>, e: Entry)
    requires DistinctPaths(es) && e in es
    ensures Lookup(es, e.path) == Some(e.access)
  {
    LookupGoverned(es, e, e.path);
  }
}
