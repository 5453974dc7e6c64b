// Exactly when a second normalization pass changes nothing.
module SecondPass {
  import opened Order
  import opened Paths
  import opened Policy
  import opened Normalization
  import opened CanonicalForm

  /** Entry x is retained and an ancestor of entry k and of every retained entry between them. */
  ghost predicate KeptVisible(s: seq<Entry>, x: nat, k: nat)
    requires k < |s|
  {
    x < k && !Repeats(s, x) && forall y | x < y <= k && !Repeats(s, y) :: Within(s[x].path, s[y].path)
  }

  ghost predicate NearestKept(s: seq<Entry>, x: nat, k: nat)
    requires k < |s|
  {
    KeptVisible(s, x, k) && forall y: nat | x < y < k :: !KeptVisible(s, y, k)
  }

  /** Entry k survives the first pass, but has the access of an ancestor that only
      entries the pass dropped had kept out of its sight. */
  ghost predicate Uncovered(s: seq<Entry>, k: nat)
    requires k < |s|
  {
    !Repeats(s, k) && exists x: nat :: NearestKept(s, x, k) && s[x].access == s[k].access
  }

  /** Position of retained entry k in the retained list. */
  ghost function Rank(s: seq<Entry>, k: nat): nat
    requires k <= |s|
  {
    |Kept(s, k)|
  }

  lemma {:induction false} KeptPrefix(s: seq<Entry>, k: nat, n: nat)
    requires k <= n <= |s|
    ensures Kept(s, k) <= Kept(s, n)
  {
    hide Repeats;
    if k < n { KeptPrefix(s, k, n - 1); }
  }

  /** The retained list holds the retained entries at their ranks, in order. */
  lemma RankHolds(s: seq<Entry>, k: nat)
    requires k < |s| && !Repeats(s, k)
    ensures Rank(s, k) < |Kept(s, |s|)| && Kept(s, |s|)[Rank(s, k)] == s[k]
  {
    hide Repeats;
    KeptPrefix(s, k + 1, |s|);
    assert Kept(s, k + 1)[Rank(s, k)] == s[k];
  }

  lemma RankGrows(s: seq<Entry>, x: nat, k: nat)
    requires x < k <= |s|
    ensures Rank(s, x) <= Rank(s, k) && (!Repeats(s, x) ==> Rank(s, x) < Rank(s, k))
  {
    hide Repeats;
    KeptPrefix(s, x, k);
    KeptPrefix(s, x + 1, k);
  }

  lemma {:induction false} RankReached(s: seq<Entry>, n: nat, i: nat) returns (k: nat)
    requires n <= |s| && i < |Kept(s, n)|
    ensures k < n && !Repeats(s, k) && Rank(s, k) == i
  {
    hide Repeats;
    if !Repeats(s, n - 1) && i == |Kept(s, n - 1)| { k := n - 1; } else { k := RankReached(s, n - 1, i); }
  }

  lemma VisibleIff(s: seq<Entry>, x: nat, k: nat)
    requires x < |s| && k < |s| && !Repeats(s, x) && !Repeats(s, k)
    ensures Rank(s, k) < |Kept(s, |s|)|
    ensures Visible(Kept(s, |s|), Rank(s, x), Rank(s, k)) <==> KeptVisible(s, x, k)
  {
    hide Repeats, Within, Kept;
    var t := Kept(s, |s|);
    RankHolds(s, k);
    RankHolds(s, x);
    if x < k { RankGrows(s, x, k); }
    if k < x { RankGrows(s, k, x); }
    if KeptVisible(s, x, k) {
      forall i | Rank(s, x) < i <= Rank(s, k) ensures Within(t[Rank(s, x)].path, t[i].path) {
        var y := RankReached(s, |s|, i);
        RankHolds(s, y);
        if y < x { RankGrows(s, y, x); }
        if y > k { RankGrows(s, k, y); }
      }
    }
    if Visible(t, Rank(s, x), Rank(s, k)) {
      forall y | x < y <= k && !Repeats(s, y) ensures Within(s[x].path, s[y].path) {
        RankHolds(s, y);
        RankGrows(s, x, y);
        if y < k { RankGrows(s, y, k); }
        assert Within(t[Rank(s, x)].path, t[Rank(s, y)].path);
      }
    }
  }

  lemma NearestIff(s: seq<Entry>, x: nat, k: nat)
    requires x < |s| && k < |s| && !Repeats(s, x) && !Repeats(s, k)
    ensures Rank(s, k) < |Kept(s, |s|)|
    ensures NearestVisible(Kept(s, |s|), Rank(s, x), Rank(s, k)) <==> NearestKept(s, x, k)
  {
    hide Repeats, Visible, KeptVisible, Kept;
    var t := Kept(s, |s|);
    VisibleIff(s, x, k);
    if Visible(t, Rank(s, x), Rank(s, k)) {
      KeptBefore(s, x, k);
      forall y: nat | x < y < k && KeptVisible(s, y, k)
          ensures Visible(t, Rank(s, y), Rank(s, k)) && Rank(s, x) < Rank(s, y) < Rank(s, k) {
        KeptBefore(s, y, k);
        VisibleIff(s, y, k);
        RankGrows(s, x, y);
        RankGrows(s, y, k);
      }
      forall i: nat | Rank(s, x) < i < Rank(s, k) && Visible(t, i, Rank(s, k))
          ensures exists y: nat :: x < y < k && KeptVisible(s, y, k) {
        var y := RankReached(s, |s|, i);
        VisibleIff(s, y, k);
        KeptBefore(s, y, k);
        if y <= x { if y < x { RankGrows(s, y, x); } }
        assert x < y < k;
      }
    }
  }

  lemma KeptBefore(s: seq<Entry>, x: nat, k: nat)
    requires k < |s| && KeptVisible(s, x, k)
    ensures x < k && !Repeats(s, x)
  {
    hide Repeats, Within;
  }

  lemma UncoveringAncestor(s: seq<Entry>, k: nat) returns (x: nat)
    requires k < |s| && Uncovered(s, k)
    ensures x < k && !Repeats(s, x) && NearestKept(s, x, k) && s[x].access == s[k].access
  {
    hide Repeats, Within;
    x :| NearestKept(s, x, k) && s[x].access == s[k].access;
  }

  lemma RepeatsIff(s: seq<Entry>, k: nat)
    requires k < |s| && !Repeats(s, k)
    ensures Rank(s, k) < |Kept(s, |s|)| && (Repeats(Kept(s, |s|), Rank(s, k)) <==> Uncovered(s, k))
  {
    hide NearestVisible, KeptVisible, Visible, Kept, Repeats;
    var t := Kept(s, |s|);
    RankHolds(s, k);
    if Uncovered(s, k) {
      var x := UncoveringAncestor(s, k);
      NearestIff(s, x, k);
      RankHolds(s, x);
      RepeatsNearest(t, Rank(s, k), Rank(s, x));
    }
    if Repeats(t, Rank(s, k)) {
      var i := RepeatedAncestor(t, Rank(s, k));
      var x := RankReached(s, |s|, i);
      RankHolds(s, x);
      NearestIff(s, x, k);
    }
  }

  ghost predicate NothingUncovered(es: seq<Entry>) {
    var s := SortBy(PathKey, es);
    forall k | 0 <= k < |s| :: !Uncovered(s, k)
  }

  /** Normalizing twice is normalizing once exactly when no retained entry is
      uncovered by the entries the first pass drops. */
  lemma NormalizeIdempotentIff(es: seq<Entry>)
    requires DistinctPaths(es)
    ensures Normalize(Normalize(es)) == Normalize(es) <==> NothingUncovered(es)
  {
    hide Repeats, Within, Kept, StrictlyAscending, NearestKept;
    var s := SortBy(PathKey, es);
    var t := Normalize(es);
    assert t == Kept(s, |s|);
    NormalizeSelects(es);
    NormalizeFixedIff(t);
    if forall k | 0 <= k < |s| :: !Uncovered(s, k) {
      forall i | 0 <= i < |t| ensures !Repeats(t, i) {
        var k := RankReached(s, |s|, i);
        RepeatsIff(s, k);
      }
    } else {
      var k :| 0 <= k < |s| && Uncovered(s, k);
      RepeatsIff(s, k);
      assert Repeats(t, Rank(s, k));
    }
  }
}
