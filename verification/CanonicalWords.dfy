// What a canonical attribute text is, byte by byte: the words of the text in small
// letters with single spaces between them (ca.go:371-425).
module CanonicalWords {
  import opened Der
  import opened CanonicalText

  /** ASCII whitespace: TAB to CR, and the space. */
  predicate BlankByte(b: Byte) { b == 0x20 || 0x09 <= b <= 0x0d }

  predicate AllBlank(t: Bytes) { forall k | 0 <= k < |t| :: BlankByte(t[k]) }

  predicate Solid(w: Bytes) { w != [] && forall k | 0 <= k < |w| :: !BlankByte(w[k]) }

  /** Word w stands at t[i..j], and only blanks follow it. */
  ghost predicate LastRun(t: Bytes, i: nat, j: nat, w: Bytes) {
    && i < j <= |t| && t[i..j] == w && Solid(w) && AllBlank(t[j..])
    && (i > 0 ==> BlankByte(t[i - 1]))
  }

  /** The maximal runs of bytes that are not blank are, in order, the words ws. */
  ghost predicate Holds(t: Bytes, ws: seq<Bytes>)
    decreases |ws|, 0
  {
    if ws == [] then AllBlank(t) else Ends(t, ws[..|ws| - 1], ws[|ws| - 1])
  }

  /** The last word of t is w, and the text before it has the words `before`. */
  ghost predicate Ends(t: Bytes, before: seq<Bytes>, w: Bytes)
    decreases |before|, 1
  {
    exists i: nat, j: nat :: LastRun(t, i, j, w) && Holds(t[..i], before)
  }

  /** Byte c is byte b with an ASCII capital made small. */
  predicate SmallByte(b: Byte, c: Byte) { if 0x41 <= b <= 0x5a then c == b + 0x20 else c == b }

  predicate SmallWord(w: Bytes, v: Bytes) { |w| == |v| && forall k | 0 <= k < |w| :: SmallByte(w[k], v[k]) }

  /** Text r is the words ws in small letters, with single spaces between them. */
  ghost predicate Spells(r: Bytes, ws: seq<Bytes>)
    decreases |ws|
  {
    if ws == [] then r == []
    else
      var n := |ws| - 1;
      var m := |r| - |ws[n]|;
      && m >= 0 && SmallWord(ws[n], r[m..])
      && if n == 0 then m == 0 else m > 0 && r[m - 1] == 0x20 && Spells(r[..m - 1], ws[..n])
  }

  predicate SameByte(b: Byte, c: Byte) {
    b == c || (0x41 <= b <= 0x5a && c == b + 0x20) || (0x41 <= c <= 0x5a && b == c + 0x20)
  }

  predicate SameWord(w: Bytes, v: Bytes) { |w| == |v| && forall k | 0 <= k < |w| :: SameByte(w[k], v[k]) }

  /** The same words up to ASCII case. */
  predicate SameWords(ws: seq<Bytes>, vs: seq<Bytes>) {
    |ws| == |vs| && forall k | 0 <= k < |ws| :: SameWord(ws[k], vs[k])
  }

  // ----------------------------------------------- every text has its words

  lemma HoldsTrailing(t: Bytes, b: Byte, ws: seq<Bytes>)
    requires BlankByte(b) && Holds(t, ws)
    ensures Holds(t + [b], ws)
  {
    hide BlankByte, Solid;
    if ws != [] { EndsTrailing(t, b, ws[..|ws| - 1], ws[|ws| - 1]); }
  }

  lemma EndsTrailing(t: Bytes, b: Byte, before: seq<Bytes>, w: Bytes)
    requires BlankByte(b) && Ends(t, before, w)
    ensures Ends(t + [b], before, w)
  {
    hide BlankByte, Solid;
    var i: nat, j: nat :| LastRun(t, i, j, w) && Holds(t[..i], before);
    assert (t + [b])[..i] == t[..i] && (t + [b])[i..j] == t[i..j] && (t + [b])[j..] == t[j..] + [b];
    assert LastRun(t + [b], i, j, w);
  }

  lemma RunStart(t: Bytes) returns (i: nat)
    requires t != [] && !BlankByte(t[|t| - 1])
    ensures i < |t| && Solid(t[i..]) && (i > 0 ==> BlankByte(t[i - 1]))
  {
    hide BlankByte;
    i := |t| - 1;
    while i > 0 && !BlankByte(t[i - 1])
      invariant i < |t| && forall k | i <= k < |t| :: !BlankByte(t[k])
    {
      i := i - 1;
    }
  }

  /** Every text has its words. */
  lemma {:induction false} HoldsExists(t: Bytes) returns (ws: seq<Bytes>)
    ensures Holds(t, ws)
    decreases |t|
  {
    hide BlankByte;
    if t == [] {
      ws := [];
    } else if BlankByte(t[|t| - 1]) {
      var n := |t| - 1;
      ws := HoldsExists(t[..n]);
      HoldsTrailing(t[..n], t[n], ws);
      assert t == t[..n] + [t[n]];
    } else {
      var i := RunStart(t);
      var before := HoldsExists(t[..i]);
      ws := before + [t[i..]];
      assert ws[..|ws| - 1] == before;
      assert LastRun(t, i, |t|, t[i..]) && Ends(t, before, t[i..]);
    }
  }

  // ------------------------------------------------ the words in lower case

  lemma {:induction false} RunAppended(head: Bytes, w: Bytes, k: nat) returns (v: Bytes)
    requires Solid(w) && 0 < k <= |w|
    requires head == [] || BlankByte(head[|head| - 1])
    ensures SmallWord(w[..k], v) && Words(head + w[..k]) == Words(head) + [v]
  {
    hide Words;
    var t := head + w[..k - 1];
    assert head + w[..k] == t + [w[k - 1]];
    assert w[..k] == w[..k - 1] + [w[k - 1]];
    WordsStep(t, w[k - 1]);
    if k > 1 {
      var u := RunAppended(head, w, k - 1);
      assert t[|t| - 1] == w[k - 2];
      v := u + [Lower(w[k - 1])];
    } else {
      assert t == head;
      v := [Lower(w[0])];
    }
  }

  /** The model's words are the words of the text in small letters. */
  lemma {:induction false} HoldsWords(t: Bytes, ws: seq<Bytes>)
    requires Holds(t, ws)
    ensures |Words(t)| == |ws| && forall k | 0 <= k < |ws| :: SmallWord(ws[k], Words(t)[k])
    decreases |ws|
  {
    hide Words, SmallWord, LastRun;
    if ws == [] {
      AllSpaceHasNoWord(t);
    } else {
      var n := |ws| - 1;
      var i, j := RunOf(t, ws[..n], ws[n]);
      HoldsWords(t[..i], ws[..n]);
      var v := LastWord(t, i, j, ws[n]);
    }
  }

  lemma RunOf(t: Bytes, before: seq<Bytes>, w: Bytes) returns (i: nat, j: nat)
    requires Ends(t, before, w)
    ensures i < j <= |t| && LastRun(t, i, j, w) && Holds(t[..i], before)
  {
    i, j :| LastRun(t, i, j, w) && Holds(t[..i], before);
  }

  /** The last run adds one word. */
  lemma LastWord(t: Bytes, i: nat, j: nat, w: Bytes) returns (v: Bytes)
    requires LastRun(t, i, j, w)
    ensures SmallWord(w, v) && Words(t) == Words(t[..i]) + [v]
  {
    hide Words, SmallWord, Solid;
    SolidIsSomething(w);
    TrailingSpaceIsNoWord(t, j);
    v := RunAppended(t[..i], w, |w|);
    assert w[..|w|] == w && t[..j] == t[..i] + w;
  }

  lemma SolidIsSomething(w: Bytes)
    requires Solid(w)
    ensures w != []
  {
  }

  lemma {:induction false} JoinSpells(vs: seq<Bytes>, ws: seq<Bytes>)
    requires |vs| == |ws| && forall k | 0 <= k < |ws| :: SmallWord(ws[k], vs[k])
    ensures Spells(JoinWords(vs), ws)
    decreases |ws|
  {
    hide SmallWord;
    if ws != [] {
      var n := |ws| - 1;
      JoinSpells(vs[..n], ws[..n]);
      assert vs == vs[..n] + [vs[n]];
      JoinStep(vs[..n], vs[n]);
      assert SmallWord(ws[n], vs[n]);
      SmallWordLength(ws[n], vs[n]);
      var r := JoinWords(vs);
      var m := |r| - |ws[n]|;
      assert r[m..] == vs[n];
      if n > 0 { assert r[..m - 1] == JoinWords(vs[..n]); }
    }
  }

  lemma SmallWordLength(w: Bytes, v: Bytes)
    requires SmallWord(w, v)
    ensures |w| == |v|
  {
  }

  /** The canonical text of t is its words in small letters, with single spaces between them. */
  lemma CanonicalizedSpells(t: Bytes, ws: seq<Bytes>)
    requires Holds(t, ws)
    ensures Spells(Canonicalized(t), ws)
  {
    hide Holds, Words, Spells, SmallWord;
    HoldsWords(t, ws);
    JoinSpells(Words(t), ws);
  }

  lemma SmallWordOnce(w: Bytes, u: Bytes, v: Bytes)
    requires SmallWord(w, u) && SmallWord(w, v)
    ensures u == v
  {
  }

  /** The words decide what they spell. */
  lemma {:induction false} SpellsOnce(r: Bytes, q: Bytes, ws: seq<Bytes>)
    requires Spells(r, ws) && Spells(q, ws)
    ensures r == q
    decreases |ws|
  {
    hide SmallWord;
    if ws != [] {
      var n := |ws| - 1;
      var m, k := |r| - |ws[n]|, |q| - |ws[n]|;
      SmallWordOnce(ws[n], r[m..], q[k..]);
      assert r == r[..m] + r[m..] && q == q[..k] + q[k..];
      if n > 0 {
        SpellsOnce(r[..m - 1], q[..k - 1], ws[..n]);
        assert r[..m] == r[..m - 1] + [r[m - 1]] && q[..k] == q[..k - 1] + [q[k - 1]];
      }
    }
  }

  lemma SameWordIff(w: Bytes, v: Bytes, x: Bytes, y: Bytes)
    requires SmallWord(w, x) && SmallWord(v, y)
    ensures SameWord(w, v) <==> x == y
  {
  }

  /** Two texts have one canonical text exactly if they have the same words up to ASCII case. */
  lemma CanonicalizedEqualIff(a: Bytes, b: Bytes, ws: seq<Bytes>, vs: seq<Bytes>)
    requires Holds(a, ws) && Holds(b, vs)
    ensures Canonicalized(a) == Canonicalized(b) <==> SameWords(ws, vs)
  {
    hide Holds, Words, SmallWord, SameWord, Canonicalized;
    SameCanonicalFormIff(a, b);
    HoldsWords(a, ws);
    HoldsWords(b, vs);
    if |ws| == |vs| {
      forall k | 0 <= k < |ws| ensures SameWord(ws[k], vs[k]) <==> Words(a)[k] == Words(b)[k] {
        SameWordIff(ws[k], vs[k], Words(a)[k], Words(b)[k]);
      }
    }
  }
}
