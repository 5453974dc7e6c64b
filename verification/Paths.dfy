// Host paths as text: path_containment.go, and the canonical form the policy demands.
//
// A Go string is a byte string; a Dafny string of characters below 256 is the
// same thing, and every statement here holds for all characters.
module Paths {
  import opened Order

  type Path = string

  function Codes(s: string): (c: seq<int>)
    ensures |c| == |s|
  {
    seq(|s|, i requires 0 <= i < |s| => s[i] as int)
  }

  /** Go's `<` on strings. */
  predicate PathLess(a: Path, b: Path) { LexLess(Codes(a), Codes(b)) }

  lemma CodesInjective(a: Path, b: Path)
    requires Codes(a) == Codes(b)
    ensures a == b
  {
    forall i | 0 <= i < |a| ensures a[i] == b[i] {
      assert Codes(a)[i] == Codes(b)[i];
    }
  }

  lemma PathTotal(a: Path, b: Path)
    ensures PathLess(a, b) || a == b || PathLess(b, a)
    ensures !(PathLess(a, b) && PathLess(b, a)) && !PathLess(a, a)
  {
    LexTotal(Codes(a), Codes(b));
    if Codes(a) == Codes(b) { CodesInjective(a, b); }
    LexIrreflexive(Codes(a));
    if PathLess(a, b) { LexAsymmetric(Codes(a), Codes(b)); }
  }

  /** The text every proper descendant of r starts with. */
  function Below(r: Path): Path { if r == "/" then r else r + "/" }

  /** pathWithin: p is root r or lies under it. */
  predicate Within(r: Path, p: Path) { r == p || Below(r) <= p }

  /** pathStrictlyWithin. */
  predicate StrictlyWithin(r: Path, p: Path) { r != p && Below(r) <= p }

  lemma OwnWithin(p: Path)
    ensures Within(p, p)
  {
  }

  lemma WithinTransitive(r: Path, q: Path, p: Path)
    requires Within(r, q) && Within(q, p)
    ensures Within(r, p)
  {
    if r != q && q != p {
      assert Below(r) <= q <= Below(q) <= p;
      assert p[..|Below(r)|] == Below(r);
    }
  }

  lemma WithinAntisymmetric(r: Path, q: Path)
    requires Within(r, q) && Within(q, r)
    ensures r == q
  {
  }

  /** All roots containing one path form a chain. */
  lemma WithinChain(r: Path, q: Path, p: Path)
    requires Within(r, p) && Within(q, p)
    ensures Within(r, q) || Within(q, r)
  {
    if |r| < |q| { ShorterContains(r, q, p); }
    else if |q| < |r| { ShorterContains(q, r, p); }
    else { assert r == p[..|r|] == q; }
  }

  lemma ShorterContains(r: Path, q: Path, p: Path)
    requires Within(r, p) && Within(q, p) && |r| < |q|
    ensures Within(r, q)
  {
    assert q == p[..|q|] && Below(r) == p[..|Below(r)|];
    assert q[..|Below(r)|] == Below(r);
  }

  /** Ancestors come first in the byte order. */
  lemma AncestorFirst(r: Path, p: Path)
    requires Within(r, p) && r != p
    ensures PathLess(r, p)
  {
    assert r <= Below(r) <= p;
    assert Codes(r) == Codes(p)[..|r|];
    LexPrefix(Codes(r), Codes(p));
  }

  /** A path between an ancestor r and its descendant p in the byte order
      starts with r; it is under r unless the next character is below '/'. */
  lemma BetweenStartsWith(r: Path, y: Path, p: Path)
    requires StrictlyWithin(r, p) && PathLess(r, y) && PathLess(y, p)
    ensures r < y
    ensures !Within(r, y) ==> r != "/" && y[|r|] < '/'
  {
    assert r <= Below(r) <= p && r == p[..|r|];
    if !(r <= y) {
      var k := FirstDifference(r, y);
      if k < |y| {
        CompareAt(r, y, k);
        assert p[k] == r[k] && p[..k] == r[..k];
        CompareAt(y, p, k);
      } else {
        assert y == r[..|y|] && Codes(y) == Codes(r)[..|y|];
        LexPrefix(Codes(y), Codes(r));
        PathTotal(r, y);
      }
    } else if r == y {
      PathTotal(r, r);
    } else if r != "/" && y[|r|] != '/' {
      assert Below(r) == p[..|r| + 1] && p[|r|] == '/' && p[..|r|] == r == y[..|r|];
      CompareAt(y, p, |r|);
    } else if r != "/" {
      assert y[..|r| + 1] == Below(r);
    }
  }

  function FirstDifference(a: Path, b: Path): (k: nat)
    requires !(a <= b)
    ensures k <= |b| && k < |a| && a[..k] == b[..k]
    ensures k < |b| ==> a[k] != b[k]
  {
    if b == [] || a[0] != b[0] then 0
    else
      assert !(a[1..] <= b[1..]) by { assert a == [a[0]] + a[1..] && b == [b[0]] + b[1..]; }
      var k := FirstDifference(a[1..], b[1..]);
      assert a[..k + 1] == [a[0]] + a[1..][..k] && b[..k + 1] == [b[0]] + b[1..][..k];
      k + 1
  }

  lemma CompareAt(a: Path, b: Path, k: nat)
    requires k < |a| && k < |b| && a[..k] == b[..k] && a[k] != b[k]
    ensures PathLess(a, b) <==> a[k] < b[k]
  {
    assert Codes(a)[..k] == Codes(a[..k]) == Codes(b)[..k];
    LexDifference(Codes(a), Codes(b), k);
  }

  // -------------------------------------------------------- components

  /** strings.Split with a one-character separator. */
  function Split(s: string, sep: char): (parts: seq<string>)
    ensures parts != []
  {
    if s == "" then [""]
    else
      var rest := Split(s[1..], sep);
      if s[0] == sep then [""] + rest else [[s[0]] + rest[0]] + rest[1..]
  }

  function Join(parts: seq<string>, sep: char): string
    requires parts != []
  {
    if |parts| == 1 then parts[0] else parts[0] + [sep] + Join(parts[1..], sep)
  }

  lemma {:induction false} JoinSplit(s: string, sep: char)
    ensures Join(Split(s, sep), sep) == s
  {
    if s != "" {
      JoinSplit(s[1..], sep);
      var rest := Split(s[1..], sep);
      assert s == [s[0]] + s[1..];
      if s[0] == sep { assert Split(s, sep)[1..] == rest; } else { JoinFirst(rest, s[0], sep); }
    }
  }

  lemma JoinFirst(parts: seq<string>, c: char, sep: char)
    requires parts != []
    ensures Join([[c] + parts[0]] + parts[1..], sep) == [c] + Join(parts, sep)
  {
    var longer := [[c] + parts[0]] + parts[1..];
    assert longer[1..] == parts[1..];
  }

  lemma {:induction false} SplitHasNoSeparator(s: string, sep: char)
    ensures forall c | c in Split(s, sep) :: sep !in c
  {
    if s != "" {
      SplitHasNoSeparator(s[1..], sep);
      var rest := Split(s[1..], sep);
      assert rest[0] in rest;
    }
  }

  lemma {:induction false} SplitJoin(parts: seq<string>, sep: char)
    requires parts != [] && forall c | c in parts :: sep !in c
    ensures Split(Join(parts, sep), sep) == parts
  {
    if |parts| == 1 {
      SplitWord(parts[0], sep);
    } else {
      SplitJoin(parts[1..], sep);
      SplitConcat(parts[0], Join(parts[1..], sep), sep);
      SplitWord(parts[0], sep);
      assert parts == [parts[0]] + parts[1..];
    }
  }

  lemma {:induction false} SplitWord(s: string, sep: char)
    requires sep !in s
    ensures Split(s, sep) == [s]
  {
    if s != "" {
      SplitWord(s[1..], sep);
      assert s == [s[0]] + s[1..];
    }
  }

  lemma {:induction false} SplitConcat(a: string, b: string, sep: char)
    ensures Split(a + [sep] + b, sep) == Split(a, sep) + Split(b, sep)
  {
    var t := a + [sep] + b;
    if a == "" {
      assert t[1..] == b;
    } else {
      SplitConcat(a[1..], b, sep);
      assert t[1..] == a[1..] + [sep] + b && t[0] == a[0];
      AppendRest(Split(a[1..], sep), Split(b, sep), a[0], sep);
    }
  }

  lemma AppendRest(r: seq<string>, q: seq<string>, c: char, sep: char)
    requires r != []
    ensures [""] + (r + q) == ([""] + r) + q
    ensures [[c] + (r + q)[0]] + (r + q)[1..] == ([[c] + r[0]] + r[1..]) + q
  {
  }

  /** filepath.IsAbs(p) && filepath.Clean(p) == p. */
  predicate Canonical(p: Path) {
    p == "/" || (|p| > 1 && p[0] == '/' && forall c | c in Split(p[1..], '/') :: c != "" && c != "." && c != "..")
  }

  /** filepath.Clean on the parts of an absolute path: empty parts and "." go, ".." takes
      the part before it away. */
  function Cleaned(parts: seq<string>): seq<string> {
    if parts == [] then []
    else
      var before := Cleaned(parts[..|parts| - 1]);
      var part := parts[|parts| - 1];
      if part == "" || part == "." then before
      else if part == ".." then (if before == [] then [] else before[..|before| - 1])
      else before + [part]
  }

  function Clean(p: Path): Path
    requires p != "" && p[0] == '/'
  {
    var parts := Cleaned(Split(p[1..], '/'));
    "/" + if parts == [] then "" else Join(parts, '/')
  }

  predicate Named(c: string) { c != "" && c != "." && c != ".." }

  lemma {:induction false} CleanedParts(parts: seq<string>)
    ensures forall c | c in Cleaned(parts) :: c in parts && Named(c)
    ensures (forall c | c in parts :: Named(c)) ==> Cleaned(parts) == parts
  {
    if parts != [] {
      var n := |parts| - 1;
      CleanedParts(parts[..n]);
      var before, part := Cleaned(parts[..n]), parts[n];
      assert parts == parts[..n] + [part];
      forall c | c in Cleaned(parts) ensures c in parts && Named(c) {
        if c !in before { assert Named(part) && c == part; } else { assert c in parts[..n]; }
      }
      if forall c | c in parts :: Named(c) {
        assert part in parts && Named(part);
        assert forall c | c in parts[..n] :: c in parts;
      }
    }
  }

  /** The canonical paths are exactly the absolute ones that cleaning leaves alone. */
  lemma CanonicalIff(p: Path)
    ensures Canonical(p) <==> p != "" && p[0] == '/' && Clean(p) == p
  {
    if p != "" && p[0] == '/' {
      var rest := p[1..];
      var parts := Split(rest, '/');
      var kept := Cleaned(parts);
      CleanedParts(parts);
      JoinSplit(rest, '/');
      assert p == "/" + rest;
      if p == "/" {
        RootIsClean();
      } else if Canonical(p) {
        assert forall c | c in parts :: Named(c);
        assert kept == parts;
        assert Clean(p) == "/" + Join(parts, '/');
      }
      if Clean(p) == p && p != "/" {
        assert kept == [] ==> "/" + "" == "/";
        assert kept != [] && p == "/" + Join(kept, '/');
        SplitHasNoSeparator(rest, '/');
        assert rest == Join(kept, '/');
        SplitJoin(kept, '/');
        assert forall c | c in parts :: Named(c);
      }
    }
  }

  lemma RootIsClean()
    ensures Canonical("/") && Clean("/") == "/"
  {
    var parts := Split("/"[1..], '/');
    assert parts == [""] && parts[..0] == [] && Cleaned([]) == [];
    assert Cleaned(parts) == [];
    assert "/" + "" == "/";
  }

  type CanonicalPath = p: Path | Canonical(p) witness "/"

  function Components(p: Path): seq<string>
    requires Canonical(p)
  {
    if p == "/" then [] else Split(p[1..], '/')
  }

  /** On canonical paths, containment is the prefix relation on components. */
  lemma WithinIsComponentPrefix(r: Path, p: Path)
    requires Canonical(r) && Canonical(p)
    ensures Within(r, p) <==> Components(r) <= Components(p)
  {
    if r == "/" || r == p { return; }
    var a := r[1..];
    if Within(r, p) {
      var b := p[|r| + 1..];
      assert p[1..] == a + "/" + b;
      SplitConcat(a, b, '/');
    }
    if Components(r) <= Components(p) {
      JoinSplit(a, '/');
      if p == "/" { assert false; }
      JoinSplit(p[1..], '/');
      if Components(r) != Components(p) {
        JoinPrefix(Components(r), Components(p), '/');
        assert a + "/" <= p[1..];
        assert r == ['/'] + a && p == ['/'] + p[1..];
        assert r + "/" <= p;
      }
    }
  }

  lemma {:induction false} JoinPrefix(x: seq<string>, y: seq<string>, sep: char)
    requires x != [] && x < y
    ensures Join(x, sep) + [sep] <= Join(y, sep)
  {
    assert x[0] == y[0];
    if |x| > 1 { JoinPrefix(x[1..], y[1..], sep); }
  }

  /** filepath.Rel on components: up out of what is not shared, then down. */
  function Rel(base: seq<string>, target: seq<string>): seq<string> {
    if base == [] then target
    else if target != [] && base[0] == target[0] then Rel(base[1..], target[1..])
    else seq(|base|, i => "..") + target
  }

  /** The source's test: equal, or the relative path does not start by going up. */
  predicate RelWithin(r: Path, p: Path)
    requires Canonical(r) && Canonical(p)
  {
    r == p || var rel := Rel(Components(r), Components(p)); rel == [] || rel[0] != ".."
  }

  lemma {:induction false} RelGoesUpIff(base: seq<string>, target: seq<string>)
    requires ".." !in target
    ensures base <= target <==> (Rel(base, target) == [] || Rel(base, target)[0] != "..")
  {
    if base != [] {
      if target != [] && base[0] == target[0] {
        RelGoesUpIff(base[1..], target[1..]);
        assert base == [base[0]] + base[1..] && target == [target[0]] + target[1..];
      }
    } else if target != [] {
      assert target[0] in target;
    }
  }

  lemma NoDotDot(p: Path)
    requires Canonical(p)
    ensures ".." !in Components(p)
  {
  }

  /** pathWithin on canonical paths is the textual containment used throughout. */
  lemma RelWithinIsWithin(r: Path, p: Path)
    requires Canonical(r) && Canonical(p)
    ensures RelWithin(r, p) <==> Within(r, p)
  {
    hide Canonical, Components;
    WithinIsComponentPrefix(r, p);
    NoDotDot(p);
    RelGoesUpIff(Components(r), Components(p));
  }
}
