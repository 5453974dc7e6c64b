// Managed MAC boundaries and their canonical list (apparmor.go, sortManagedBoundaries).
module ManagedBoundaries {
  import opened Order
  import opened Paths

  datatype Kind = Directory | RegularFile

  datatype Boundary = Boundary(path: Path, kind: Kind)

  /** Path first, then kind; a code below every character ends the path. */
  function Key(b: Boundary): seq<int> { Codes(b.path) + [if b.kind == Directory then -2 else -1] }

  function PathOf(b: Boundary): seq<int> { Codes(b.path) }

  predicate KindLess(a: Kind, b: Kind) { a == Directory && b == RegularFile }

  function DropRepeats(s: seq<Boundary>): seq<Boundary> {
    if s == [] then []
    else
      var n := |s| - 1;
      var r := DropRepeats(s[..n]);
      if r != [] && r[|r| - 1].path == s[n].path then r else r + [s[n]]
  }

  function Managed(bs: seq<Boundary>): seq<Boundary> { DropRepeats(SortBy(Key, bs)) }

  /** sortManagedBoundaries. */
  method SortManaged(bs: seq<Boundary>) returns (deduped: seq<Boundary>)
    ensures deduped == Managed(bs)
  {
    var sorted := SortBy(Key, bs);
    deduped := [];
    for i := 0 to |sorted|
      invariant deduped == DropRepeats(sorted[..i])
      invariant i > 0 ==> deduped != []
    {
      assert sorted[..i + 1][..i] == sorted[..i];
      if i > 0 && sorted[i].path == deduped[|deduped| - 1].path { continue; }
      deduped := deduped + [sorted[i]];
    }
    assert sorted[..|sorted|] == sorted;
  }

  lemma {:induction false} LexWithEnd(x: seq<int>, y: seq<int>, k: int, m: int)
    requires (forall i | 0 <= i < |x| :: x[i] >= 0) && (forall i | 0 <= i < |y| :: y[i] >= 0) && k < 0 && m < 0
    ensures LexLess(x + [k], y + [m]) <==> LexLess(x, y) || (x == y && k < m)
  {
    var a, b := x + [k], y + [m];
    if x != [] && y != [] {
      assert a[1..] == x[1..] + [k] && b[1..] == y[1..] + [m];
      LexWithEnd(x[1..], y[1..], k, m);
      assert x == [x[0]] + x[1..] && y == [y[0]] + y[1..];
    } else if x == [] && y == [] {
      assert a[1..] == [] && b[1..] == [];
    }
  }

  lemma KeyOrder(a: Boundary, b: Boundary)
    ensures LexLess(Key(a), Key(b)) <==> PathLess(a.path, b.path) || (a.path == b.path && KindLess(a.kind, b.kind))
  {
    hide LexLess;
    LexWithEnd(Codes(a.path), Codes(b.path),
      if a.kind == Directory then -2 else -1, if b.kind == Directory then -2 else -1);
    if Codes(a.path) == Codes(b.path) { CodesInjective(a.path, b.path); }
  }

  // ------------------------------------------------- what the list is

  /** Boundary b is the one kept for its path: directory before regular file. */
  ghost predicate Chosen(bs: seq<Boundary>, b: Boundary) {
    b in bs && forall c | c in bs && c.path == b.path :: b.kind == Directory || c.kind == RegularFile
  }

  /** Sorted by path then kind, possibly with repeats. */
  ghost predicate Sorted(s: seq<Boundary>) {
    forall i, j | 0 <= i < j < |s| ::
        PathLess(s[i].path, s[j].path) || (s[i].path == s[j].path && !KindLess(s[j].kind, s[i].kind))
  }

  lemma SortByKeySorted(bs: seq<Boundary>)
    ensures Sorted(SortBy(Key, bs)) && forall b :: b in SortBy(Key, bs) <==> b in bs
  {
    hide LexLess, Key;
    SortByCorrect(Key, bs);
    var s := SortBy(Key, bs);
    forall i, j | 0 <= i < j < |s|
        ensures PathLess(s[i].path, s[j].path) || (s[i].path == s[j].path && !KindLess(s[j].kind, s[i].kind)) {
      KeyOrder(s[j], s[i]);
      PathTotal(s[i].path, s[j].path);
    }
  }

  lemma {:induction false} DropRepeatsIs(s: seq<Boundary>)
    requires Sorted(s)
    ensures var r := DropRepeats(s);
            && StrictlyAscending(PathOf, r)
            && (forall b :: b in r <==> Chosen(s, b))
            && (s != [] ==> r != [] && r[|r| - 1].path == s[|s| - 1].path)
  {
    hide LexLess;
    if s != [] {
      var n := |s| - 1;
      DropRepeatsIs(s[..n]);
      var r := DropRepeats(s[..n]);
      assert s == s[..n] + [s[n]];
      if n > 0 { assert PathLess(s[n - 1].path, s[n].path) || s[n - 1].path == s[n].path; }
      DropStep(s, r);
    }
  }

  lemma DropStep(s: seq<Boundary>, r: seq<Boundary>)
    requires s != [] && Sorted(s)
    requires var n := |s| - 1;
             && StrictlyAscending(PathOf, r) && (forall b :: b in r <==> Chosen(s[..n], b))
             && (n > 0 ==> r != [] && r[|r| - 1].path == s[n - 1].path)
    ensures var n := |s| - 1;
            var t := if r != [] && r[|r| - 1].path == s[n].path then r else r + [s[n]];
            StrictlyAscending(PathOf, t) && forall b :: b in t <==> Chosen(s, b)
  {
    hide LexLess, PathLess, Chosen, Sorted;
    var n := |s| - 1;
    RetainedAreIn(s, r);
    if r != [] && r[|r| - 1].path == s[n].path {
      var last := r[|r| - 1];
      assert last in r;
      KeptFirst(s, last);
      forall b ensures Chosen(s[..n], b) <==> Chosen(s, b) { ChosenShorter(s, b, last); }
    } else {
      NewPathLast(s);
      NewPathChosen(s);
      forall i | 0 <= i < |r| ensures LexLess(PathOf(r[i]), PathOf(s[n])) {
        assert r[i] in r;
        BeforeLast(s, r[i]);
      }
    }
  }

  lemma RetainedAreIn(s: seq<Boundary>, r: seq<Boundary>)
    requires s != [] && forall b :: b in r <==> Chosen(s[..|s| - 1], b)
    ensures forall b | b in r :: b in s[..|s| - 1]
  {
  }

  lemma BeforeLast(s: seq<Boundary>, b: Boundary)
    requires s != [] && b in s[..|s| - 1] && forall k | 0 <= k < |s| - 1 :: PathLess(s[k].path, s[|s| - 1].path)
    ensures LexLess(PathOf(b), PathOf(s[|s| - 1]))
  {
    hide LexLess;
    var k :| 0 <= k < |s| - 1 && s[k] == b;
  }

  /** A path other than the one before it is after every earlier path. */
  lemma NewPathLast(s: seq<Boundary>)
    requires s != [] && Sorted(s) && (|s| > 1 ==> s[|s| - 2].path != s[|s| - 1].path)
    ensures forall k | 0 <= k < |s| - 1 :: PathLess(s[k].path, s[|s| - 1].path)
  {
    hide PathLess;
    var n := |s| - 1;
    forall k | 0 <= k < n ensures PathLess(s[k].path, s[n].path) {
      assert PathLess(s[n - 1].path, s[n].path);
      if k < n - 1 { PathTotal(s[n - 1].path, s[n].path); }
    }
  }

  lemma NewPathChosen(s: seq<Boundary>)
    requires s != [] && forall k | 0 <= k < |s| - 1 :: PathLess(s[k].path, s[|s| - 1].path)
    ensures forall b :: (Chosen(s[..|s| - 1], b) || b == s[|s| - 1]) <==> Chosen(s, b)
  {
    hide PathLess;
    var n := |s| - 1;
    assert s == s[..n] + [s[n]];
    PathTotal(s[n].path, s[n].path);
  }

  lemma KeptFirst(s: seq<Boundary>, last: Boundary)
    requires s != [] && Sorted(s) && Chosen(s[..|s| - 1], last) && last.path == s[|s| - 1].path
    ensures !KindLess(s[|s| - 1].kind, last.kind)
  {
    var n := |s| - 1;
    var k :| 0 <= k < n && s[k] == last;
    PathTotal(s[k].path, s[n].path);
  }

  lemma ChosenShorter(s: seq<Boundary>, b: Boundary, last: Boundary)
    requires s != [] && Chosen(s[..|s| - 1], last) && last.path == s[|s| - 1].path &&
             !KindLess(s[|s| - 1].kind, last.kind)
    ensures Chosen(s[..|s| - 1], b) <==> Chosen(s, b)
  {
    var n := |s| - 1;
    assert s == s[..n] + [s[n]];
    if Chosen(s, b) && b == s[n] { assert last in s; }
  }

  /** The canonical list: strictly sorted by path, for each path of the input its
      one chosen boundary, and nothing else. */
  lemma ManagedIs(bs: seq<Boundary>)
    ensures StrictlyAscending(PathOf, Managed(bs)) && forall b :: b in Managed(bs) <==> Chosen(bs, b)
  {
    hide LexLess;
    SortByKeySorted(bs);
    DropRepeatsIs(SortBy(Key, bs));
  }

  /** A strictly sorted list is its own canonical list. */
  lemma ManagedFixed(s: seq<Boundary>)
    requires StrictlyAscending(PathOf, s)
    ensures Managed(s) == s
  {
    hide LexLess;
    ManagedIs(s);
    forall b | b in s ensures Chosen(s, b) {
      forall c | c in s && c.path == b.path ensures c == b {
        StrictlyAscendingKeyed(PathOf, s);
      }
    }
    StrictlyAscendingSet(PathOf, Managed(s), s);
  }

  lemma ManagedIdempotent(bs: seq<Boundary>)
    ensures Managed(Managed(bs)) == Managed(bs)
  {
    ManagedIs(bs);
    ManagedFixed(Managed(bs));
  }

  /** Two lists with the same boundaries have the same canonical list. */
  lemma ManagedOrderFree(a: seq<Boundary>, b: seq<Boundary>)
    requires forall x :: x in a <==> x in b
    ensures Managed(a) == Managed(b)
  {
    hide LexLess;
    ManagedIs(a);
    ManagedIs(b);
    forall x ensures Chosen(a, x) <==> Chosen(b, x) {}
    StrictlyAscendingSet(PathOf, Managed(a), Managed(b));
  }
}
