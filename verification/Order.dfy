// Lexicographic order on sequences of codes, and sorting by a key.
//
// Go compares strings and byte slices element by element, a proper prefix
// first. Every sort of the repository uses that order on some key of the
// elements: the path of a policy entry, the DER bytes of an attribute, the path
// and kind of a managed boundary.
module Order {

  predicate LexLess(a: seq<int>, b: seq<int>) {
    if a == [] then b != []
    else if b == [] then false
    else a[0] < b[0] || (a[0] == b[0] && LexLess(a[1..], b[1..]))
  }

  lemma {:induction false} LexIrreflexive(a: seq<int>)
    ensures !LexLess(a, a)
  {
    if a != [] { LexIrreflexive(a[1..]); }
  }

  lemma {:induction false} LexTransitive(a: seq<int>, b: seq<int>, c: seq<int>)
    requires LexLess(a, b) && LexLess(b, c)
    ensures LexLess(a, c)
  {
    if a != [] && a[0] == b[0] == c[0] { LexTransitive(a[1..], b[1..], c[1..]); }
  }

  lemma {:induction false} LexTotal(a: seq<int>, b: seq<int>)
    ensures LexLess(a, b) || a == b || LexLess(b, a)
  {
    if a != [] && b != [] && a[0] == b[0] {
      LexTotal(a[1..], b[1..]);
      assert a == [a[0]] + a[1..] && b == [b[0]] + b[1..];
    }
  }

  lemma LexAsymmetric(a: seq<int>, b: seq<int>)
    requires LexLess(a, b)
    ensures !LexLess(b, a)
  {
    if LexLess(b, a) {
      LexTransitive(a, b, a);
      LexIrreflexive(a);
    }
  }

  /** A proper prefix comes first. */
  lemma {:induction false} LexPrefix(a: seq<int>, b: seq<int>)
    requires a <= b && a != b
    ensures LexLess(a, b)
  {
    if a != [] {
      assert a == [a[0]] + a[1..] && b == [b[0]] + b[1..];
      LexPrefix(a[1..], b[1..]);
    }
  }

  /** Two sequences compare as their first difference, if neither is a prefix. */
  lemma {:induction false} LexDifference(a: seq<int>, b: seq<int>, k: nat)
    requires k < |a| && k < |b| && a[..k] == b[..k] && a[k] != b[k]
    ensures LexLess(a, b) <==> a[k] < b[k]
  {
    if k > 0 {
      assert a[0] == a[..k][0] == b[..k][0] == b[0];
      assert a[1..][..k - 1] == a[..k][1..] && b[1..][..k - 1] == b[..k][1..];
      LexDifference(a[1..], b[1..], k - 1);
    }
  }

  // ------------------------------------------------------------- sorting

  function Insert<T>(key: T -> seq<int>, x: T, xs: seq<T>): seq<T> {
    if xs == [] then [x]
    else if LexLess(key(xs[0]), key(x)) then [xs[0]] + Insert(key, x, xs[1..])
    else [x] + xs
  }

  /** The model of `sort.Slice` with "key(a) < key(b)": see SortDetermined. */
  function SortBy<T>(key: T -> seq<int>, xs: seq<T>): seq<T> {
    if xs == [] then [] else Insert(key, xs[0], SortBy(key, xs[1..]))
  }

  ghost predicate Ascending<T>(key: T -> seq<int>, xs: seq<T>) {
    forall i, j | 0 <= i < j < |xs| :: !LexLess(key(xs[j]), key(xs[i]))
  }

  ghost predicate StrictlyAscending<T>(key: T -> seq<int>, xs: seq<T>) {
    forall i, j | 0 <= i < j < |xs| :: LexLess(key(xs[i]), key(xs[j]))
  }

  /** Equal keys mean equal elements: no sorting algorithm has a choice. */
  ghost predicate KeyedBy<T>(key: T -> seq<int>, xs: seq<T>) {
    forall i, j | 0 <= i < |xs| && 0 <= j < |xs| && key(xs[i]) == key(xs[j]) :: xs[i] == xs[j]
  }

  lemma {:induction false} InsertMultiset<T>(key: T -> seq<int>, x: T, xs: seq<T>)
    ensures multiset(Insert(key, x, xs)) == multiset{x} + multiset(xs)
  {
    if xs != [] {
      assert xs == [xs[0]] + xs[1..];
      if LexLess(key(xs[0]), key(x)) { InsertMultiset(key, x, xs[1..]); }
    }
  }

  lemma {:induction false} InsertAscending<T>(key: T -> seq<int>, x: T, xs: seq<T>)
    requires Ascending(key, xs)
    ensures Ascending(key, Insert(key, x, xs))
  {
    if xs == [] { return; }
    if LexLess(key(xs[0]), key(x)) {
      InsertAscending(key, x, xs[1..]);
      var r := Insert(key, x, xs[1..]);
      InsertMultiset(key, x, xs[1..]);
      forall k | 0 <= k < |r| ensures !LexLess(key(r[k]), key(xs[0])) {
        assert r[k] in multiset(r);
        LexAsymmetric(key(xs[0]), key(x));
        if r[k] != x { assert r[k] in xs[1..]; }
      }
    } else {
      forall k | 0 <= k < |xs| ensures !LexLess(key(xs[k]), key(x)) {
        if LexLess(key(xs[k]), key(x)) {
          LexTotal(key(xs[0]), key(xs[k]));
          if LexLess(key(xs[0]), key(xs[k])) { LexTransitive(key(xs[0]), key(xs[k]), key(x)); }
        }
      }
    }
  }

  lemma {:induction false} SortByCorrect<T>(key: T -> seq<int>, xs: seq<T>)
    ensures Ascending(key, SortBy(key, xs))
    ensures multiset(SortBy(key, xs)) == multiset(xs)
    ensures |SortBy(key, xs)| == |xs|
    ensures forall x :: x in SortBy(key, xs) <==> x in xs
  {
    if xs != [] {
      SortByCorrect(key, xs[1..]);
      InsertAscending(key, xs[0], SortBy(key, xs[1..]));
      InsertMultiset(key, xs[0], SortBy(key, xs[1..]));
      assert xs == [xs[0]] + xs[1..];
    }
    var s := SortBy(key, xs);
    assert |multiset(s)| == |s| && |multiset(xs)| == |xs|;
    forall x ensures x in s <==> x in xs {
      assert x in s <==> x in multiset(s);
      assert x in xs <==> x in multiset(xs);
    }
  }

  lemma {:induction false} AscendingUnique<T>(key: T -> seq<int>, a: seq<T>, b: seq<T>)
    requires Ascending(key, a) && Ascending(key, b) && multiset(a) == multiset(b)
    requires KeyedBy(key, a)
    ensures a == b
  {
    hide LexLess;
    assert |a| == |multiset(a)| == |multiset(b)| == |b|;
    if a != [] {
      AscendingHead(key, a, b);
      assert a == [a[0]] + a[1..] && b == [b[0]] + b[1..];
      assert multiset(a[1..]) == multiset(a) - multiset{a[0]} == multiset(b[1..]);
      AscendingUnique(key, a[1..], b[1..]);
    }
  }

  lemma AscendingHead<T>(key: T -> seq<int>, a: seq<T>, b: seq<T>)
    requires Ascending(key, a) && Ascending(key, b) && multiset(a) == multiset(b)
    requires KeyedBy(key, a) && a != [] && b != []
    ensures a[0] == b[0]
  {
    hide LexLess;
    assert a[0] in multiset(b) && b[0] in multiset(a);
    var i :| 0 <= i < |b| && b[i] == a[0];
    var j :| 0 <= j < |a| && a[j] == b[0];
    LexTotal(key(a[0]), key(b[0]));
    LexIrreflexive(key(a[0]));
    LexIrreflexive(key(b[0]));
    assert key(a[0]) == key(a[j]);
  }

  /** Any sorting algorithm gives SortBy's result when equal keys mean equal elements. */
  lemma SortDetermined<T>(key: T -> seq<int>, xs: seq<T>, ys: seq<T>)
    requires Ascending(key, ys) && multiset(ys) == multiset(xs) && KeyedBy(key, xs)
    ensures ys == SortBy(key, xs)
  {
    SortByCorrect(key, xs);
    forall i, j | 0 <= i < |ys| && 0 <= j < |ys| && key(ys[i]) == key(ys[j])
      ensures ys[i] == ys[j]
    {
      assert ys[i] in multiset(xs) && ys[j] in multiset(xs);
    }
    AscendingUnique(key, ys, SortBy(key, xs));
  }

  lemma SortedIsFixed<T>(key: T -> seq<int>, xs: seq<T>)
    requires StrictlyAscending(key, xs)
    ensures SortBy(key, xs) == xs
  {
    StrictlyAscendingKeyed(key, xs);
    SortDetermined(key, xs, xs);
  }

  lemma StrictlyAscendingKeyed<T>(key: T -> seq<int>, xs: seq<T>)
    requires StrictlyAscending(key, xs)
    ensures Ascending(key, xs) && KeyedBy(key, xs)
    ensures forall i, j | 0 <= i < |xs| && 0 <= j < |xs| && key(xs[i]) == key(xs[j]) :: i == j
  {
    forall i, j | 0 <= i < j < |xs| ensures !LexLess(key(xs[j]), key(xs[i])) && key(xs[i]) != key(xs[j]) {
      LexAsymmetric(key(xs[i]), key(xs[j]));
      LexIrreflexive(key(xs[i]));
    }
  }

  /** Strictly ascending sequences are determined by their elements alone. */
  lemma StrictlyAscendingSet<T>(key: T -> seq<int>, a: seq<T>, b: seq<T>)
    requires StrictlyAscending(key, a) && StrictlyAscending(key, b)
    requires forall x :: x in a <==> x in b
    ensures a == b
  {
    StrictlyAscendingKeyed(key, a);
    StrictlyAscendingKeyed(key, b);
    forall x ensures multiset(a)[x] == multiset(b)[x] {
      DistinctOnce(a, x);
      DistinctOnce(b, x);
    }
    AscendingUnique(key, a, b);
  }

  lemma {:induction false} DistinctOnce<T>(a: seq<T>, x: T)
    requires forall i, j | 0 <= i < j < |a| :: a[i] != a[j]
    ensures multiset(a)[x] == if x in a then 1 else 0
  {
    if a != [] {
      DistinctOnce(a[1..], x);
      assert a == [a[0]] + a[1..];
    }
  }

  /** Sorting elements with distinct keys gives a strictly ascending sequence. */
  lemma SortByStrict<T>(key: T -> seq<int>, xs: seq<T>)
    requires forall i, j | 0 <= i < j < |xs| :: key(xs[i]) != key(xs[j])
    ensures StrictlyAscending(key, SortBy(key, xs))
  {
    SortByCorrect(key, xs);
    var s := SortBy(key, xs);
    forall i, j | 0 <= i < j < |s| ensures LexLess(key(s[i]), key(s[j])) {
      LexTotal(key(s[i]), key(s[j]));
      if key(s[i]) == key(s[j]) {
        SameKeySameElement(key, xs, s[i], s[j]);
        DistinctOnce(xs, s[i]);
        TwiceCounts(s, i, j);
      }
    }
  }

  lemma SameKeySameElement<T>(key: T -> seq<int>, xs: seq<T>, x: T, y: T)
    requires forall i, j | 0 <= i < j < |xs| :: key(xs[i]) != key(xs[j])
    requires x in multiset(xs) && y in multiset(xs) && key(x) == key(y)
    ensures x == y
    ensures forall i, j | 0 <= i < j < |xs| :: xs[i] != xs[j]
  {
    var a :| 0 <= a < |xs| && xs[a] == x;
    var b :| 0 <= b < |xs| && xs[b] == y;
  }

  lemma TwiceCounts<T>(s: seq<T>, i: nat, j: nat)
    requires i < j < |s| && s[i] == s[j]
    ensures multiset(s)[s[i]] >= 2
  {
    assert s == s[..i + 1] + s[i + 1..];
    assert s[i] in s[..i + 1] && s[j] in s[i + 1..];
  }
}
