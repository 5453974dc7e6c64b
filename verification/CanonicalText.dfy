// Canonical attribute text (ca.go, canonicalizeASN1Value): the words of the
// UTF-8 text in lower case, joined by single spaces.
module CanonicalText {
  import opened Policy
  import opened Der
  import opened Utf8

  const SPACE: Byte := 0x20

  predicate Space(b: Byte) { 0x09 <= b <= 0x0d || b == SPACE }

  function Lower(b: Byte): Byte { if 0x41 <= b <= 0x5a then b + 0x20 else b }

  /** The maximal runs of bytes that are not ASCII whitespace, in lower case. */
  function Words(t: Bytes): (ws: seq<Bytes>)
    ensures t != [] && !Space(t[|t| - 1]) ==> ws != []
  {
    if t == [] then []
    else
      var n := |t| - 1;
      var ws := Words(t[..n]);
      if Space(t[n]) then ws
      else if n > 0 && !Space(t[n - 1]) then ws[..|ws| - 1] + [ws[|ws| - 1] + [Lower(t[n])]]
      else ws + [[Lower(t[n])]]
  }

  function JoinWords(ws: seq<Bytes>): Bytes {
    if ws == [] then []
    else if |ws| == 1 then ws[0]
    else JoinWords(ws[..|ws| - 1]) + [SPACE] + ws[|ws| - 1]
  }

  /** The canonical form of a UTF-8 text. */
  function Canonicalized(t: Bytes): Bytes { JoinWords(Words(t)) }

  predicate LowerWord(w: Bytes) { w != [] && forall i | 0 <= i < |w| :: !Space(w[i]) && Lower(w[i]) == w[i] }

  predicate LowerWords(ws: seq<Bytes>) { forall i | 0 <= i < |ws| :: LowerWord(ws[i]) }

  lemma {:induction false} WordsAreLower(t: Bytes)
    ensures LowerWords(Words(t))
  {
    if t != [] { WordsAreLower(t[..|t| - 1]); }
  }

  lemma WordsStep(t: Bytes, c: Byte)
    ensures Words(t + [c]) ==
            if Space(c) then Words(t)
            else if t != [] && !Space(t[|t| - 1]) then
              Words(t)[..|Words(t)| - 1] + [Words(t)[|Words(t)| - 1] + [Lower(c)]]
            else Words(t) + [[Lower(c)]]
  {
    hide Space;
    var all := t + [c];
    assert all[..|all| - 1] == t && all[|all| - 1] == c;
    if t != [] { assert all[|all| - 2] == t[|t| - 1]; }
  }

  lemma JoinStep(ws: seq<Bytes>, w: Bytes)
    ensures JoinWords(ws + [w]) == if ws == [] then w else JoinWords(ws) + [SPACE] + w
  {
    var all := ws + [w];
    assert all[..|all| - 1] == ws;
  }

  /** Words and JoinWords are inverse on lower-case words. */
  lemma {:induction false} WordsOfJoin(ws: seq<Bytes>)
    requires LowerWords(ws)
    ensures Words(JoinWords(ws)) == ws
    decreases |ws|
  {
    hide Words, JoinWords, LowerWord;
    if ws == [] {
      NoWords();
    } else {
      var n := |ws| - 1;
      var before, w := ws[..n], ws[n];
      WordsOfJoin(before);
      assert ws == before + [w];
      JoinStep(before, w);
      NoWords();
      assert LowerWord(w);
      if n == 0 {
        WholeWordAppended([], w);
        assert [] + w == w && [] + [w] == [w];
      } else {
        var head := JoinWords(before) + [SPACE];
        WordsStep(JoinWords(before), SPACE);
        WholeWordAppended(head, w);
      }
    }
  }

  lemma NoWords()
    ensures Words([]) == [] && JoinWords([]) == []
  {
  }

  lemma WholeWordAppended(head: Bytes, w: Bytes)
    requires LowerWord(w)
    requires head == [] || Space(head[|head| - 1])
    ensures Words(head + w) == Words(head) + [w]
  {
    hide Words;
    WordAppended(head, w, |w|);
    assert w[..|w|] == w;
  }

  lemma {:induction false} WordAppended(head: Bytes, w: Bytes, k: nat)
    requires LowerWord(w) && 0 < k <= |w|
    requires head == [] || Space(head[|head| - 1])
    ensures Words(head + w[..k]) == Words(head) + [w[..k]]
  {
    hide Words;
    var t := head + w[..k - 1];
    assert head + w[..k] == t + [w[k - 1]];
    assert w[..k] == w[..k - 1] + [w[k - 1]];
    WordsStep(t, w[k - 1]);
    if k > 1 {
      WordAppended(head, w, k - 1);
      assert t[|t| - 1] == w[k - 2];
    } else {
      assert t == head && [w[0]] == w[..1];
    }
  }

  /** Canonicalizing twice changes nothing more. */
  lemma CanonicalizedIsIdempotent(t: Bytes)
    ensures Canonicalized(Canonicalized(t)) == Canonicalized(t)
  {
    WordsAreLower(t);
    WordsOfJoin(Words(t));
  }

  /** Two texts have the same canonical form exactly when they have the same words
      up to case: spacing and ASCII case are all that is forgotten. */
  lemma SameCanonicalFormIff(a: Bytes, b: Bytes)
    ensures Canonicalized(a) == Canonicalized(b) <==> Words(a) == Words(b)
  {
    WordsAreLower(a);
    WordsAreLower(b);
    WordsOfJoin(Words(a));
    WordsOfJoin(Words(b));
  }

  /** No surrounding, doubled or unusual whitespace, no capital. */
  predicate Plain(t: Bytes) {
    && (forall i | 0 <= i < |t| :: (Space(t[i]) ==> t[i] == SPACE) && Lower(t[i]) == t[i])
    && (forall i | 0 < i < |t| :: !(Space(t[i]) && Space(t[i - 1])))
    && (t != [] ==> !Space(t[0]) && !Space(t[|t| - 1]))
  }

  // --------------------------------------------------- the source's passes

  /** The collapsing pass: one space for a run of whitespace, lower case. */
  function Collapse(t: Bytes): Bytes {
    if t == [] then []
    else
      var n := |t| - 1;
      var out := Collapse(t[..n]);
      if !Space(t[n]) then out + [Lower(t[n])]
      else if n > 0 && Space(t[n - 1]) then out
      else out + [SPACE]
  }

  /** On text without leading whitespace the pass joins the words, with a space
      pending after trailing whitespace. */
  lemma {:induction false} CollapseJoins(t: Bytes)
    requires t != [] ==> !Space(t[0])
    ensures Collapse(t) == if t != [] && Space(t[|t| - 1]) then JoinWords(Words(t)) + [SPACE] else JoinWords(Words(t))
    ensures t != [] ==> Words(t) != []
  {
    hide Words, JoinWords;
    NoWords();
    if t != [] {
      var n := |t| - 1;
      var head := t[..n];
      CollapseJoins(head);
      assert t == head + [t[n]];
      WordsStep(head, t[n]);
      if !Space(t[n]) {
        if n > 0 && !Space(t[n - 1]) {
          LastWordGrows(Words(head), Lower(t[n]));
        } else {
          JoinStep(Words(head), [Lower(t[n])]);
        }
      }
    }
  }

  lemma Regroup(a: Bytes, w: Bytes, b: Byte)
    ensures a + [SPACE] + (w + [b]) == a + [SPACE] + w + [b]
  {
  }

  lemma LastWordGrows(ws: seq<Bytes>, b: Byte)
    requires ws != []
    ensures JoinWords(ws[..|ws| - 1] + [ws[|ws| - 1] + [b]]) == JoinWords(ws) + [b]
  {
    hide JoinWords;
    var before, w := ws[..|ws| - 1], ws[|ws| - 1];
    assert ws == before + [w];
    JoinStep(before, w);
    JoinStep(before, w + [b]);
    Regroup(JoinWords(before), w, b);
  }

  lemma {:induction false} LeadingSpaceIsNoWord(t: Bytes, i: nat)
    requires i <= |t| && forall k | 0 <= k < i :: Space(t[k])
    ensures Words(t[i..]) == Words(t)
    decreases |t|
  {
    hide Words, Space;
    if i < |t| {
      var n := |t| - 1;
      var head := t[..n];
      LeadingSpaceIsNoWord(head, i);
      assert t == head + [t[n]] && t[i..] == head[i..] + [t[n]];
      WordsStep(head, t[n]);
      WordsStep(head[i..], t[n]);
      if i == n && n > 0 { assert Space(t[n - 1]); }
    } else {
      AllSpaceHasNoWord(t);
      NoWords();
    }
  }

  lemma {:induction false} AllSpaceHasNoWord(t: Bytes)
    requires forall k | 0 <= k < |t| :: Space(t[k])
    ensures Words(t) == []
  {
    if t != [] { AllSpaceHasNoWord(t[..|t| - 1]); }
  }

  lemma {:induction false} TrailingSpaceIsNoWord(t: Bytes, j: nat)
    requires j <= |t| && forall k | j <= k < |t| :: Space(t[k])
    ensures Words(t[..j]) == Words(t)
    decreases |t|
  {
    hide Words, Space;
    if j < |t| {
      var n := |t| - 1;
      TrailingSpaceIsNoWord(t[..n], j);
      assert t[..n][..j] == t[..j] && t == t[..n] + [t[n]];
      WordsStep(t[..n], t[n]);
    } else {
      assert t[..j] == t;
    }
  }

  /** The three passes of canonicalizeASN1Value over the converted text. */
  method CanonicalizeText(text: Bytes) returns (out: Bytes)
    ensures out == Canonicalized(text)
  {
    hide Words, Collapse;
    var i := 0;
    while i < |text| && Space(text[i])
      invariant i <= |text| && forall k | 0 <= k < i :: Space(text[k])
    {
      i := i + 1;
    }
    LeadingSpaceIsNoWord(text, i);
    var t := text[i..];
    var j := |t|;
    while j > 0 && Space(t[j - 1])
      invariant 0 <= j <= |t| && forall k | j <= k < |t| :: Space(t[k])
    {
      j := j - 1;
    }
    TrailingSpaceIsNoWord(t, j);
    var core := t[..j];
    assert core != [] ==> !Space(core[0]) by { if core != [] { assert core[0] == t[0] == text[i]; } }
    out := CollapseText(core);
    CollapseJoins(core);
  }

  method CollapseText(t: Bytes) returns (out: Bytes)
    ensures out == Collapse(t)
  {
    out := [];
    var lastSpace := false;
    for k := 0 to |t|
      invariant out == Collapse(t[..k])
      invariant lastSpace <==> k > 0 && Space(t[k - 1])
    {
      assert t[..k + 1][..k] == t[..k];
      var b := t[k];
      if Space(b) {
        if !lastSpace {
          out := out + [SPACE];
          lastSpace := true;
        }
      } else {
        out := out + [Lower(b)];
        lastSpace := false;
      }
    }
    assert t[..|t|] == t;
  }

  /** The fixed points are exactly the plain texts. */
  lemma CanonicalizedFixedIff(t: Bytes)
    ensures Canonicalized(t) == t <==> Plain(t)
  {
    if Plain(t) {
      CollapseJoins(t);
      CollapseOfPlain(t, |t|);
      assert t[..|t|] == t;
    } else if Canonicalized(t) == t {
      WordsAreLower(t);
      JoinIsPlain(Words(t));
    }
  }

  lemma {:induction false} CollapseOfPlain(t: Bytes, k: nat)
    requires Plain(t) && k <= |t|
    ensures Collapse(t[..k]) == t[..k]
  {
    if k > 0 {
      CollapseOfPlain(t, k - 1);
      assert t[..k][..k - 1] == t[..k - 1] && t[..k] == t[..k - 1] + [t[k - 1]];
    }
  }

  lemma {:induction false} JoinIsPlain(ws: seq<Bytes>)
    requires LowerWords(ws)
    ensures Plain(JoinWords(ws)) && (ws != [] ==> JoinWords(ws) != [])
  {
    if |ws| == 1 {
      assert LowerWord(ws[0]);
    } else if |ws| > 1 {
      var n := |ws| - 1;
      JoinIsPlain(ws[..n]);
      var a, w := JoinWords(ws[..n]), ws[n];
      assert LowerWord(w);
      PlainJoin(a, w);
    }
  }

  lemma PlainJoin(a: Bytes, w: Bytes)
    requires Plain(a) && a != [] && LowerWord(w)
    ensures Plain(a + [SPACE] + w)
  {
    var t := a + [SPACE] + w;
    var m := |a|;
    assert forall i | 0 <= i < m :: t[i] == a[i];
    assert t[m] == SPACE;
    assert forall i | 0 <= i < |w| :: t[m + 1 + i] == w[i];
    forall i | 0 <= i < |t| ensures (Space(t[i]) ==> t[i] == SPACE) && Lower(t[i]) == t[i] {
      if i > m { assert t[i] == w[i - m - 1]; }
    }
    forall i | 0 < i < |t| ensures !(Space(t[i]) && Space(t[i - 1])) {
      if i > m { assert t[i] == w[i - m - 1]; }
      else if i < m { assert t[i] == a[i] && t[i - 1] == a[i - 1]; }
      else { assert t[i - 1] == a[m - 1]; }
    }
  }

  // ------------------------------------------------------- the whole value

  /** canonicalizeASN1Value: None is the conversion's error. */
  ghost function CanonicalValue(data: Bytes, tag: Byte): Option<Bytes> {
    match Converted(data, tag) case None => None case Some(text) => Some(Canonicalized(text))
  }

  method CanonicalizeValue(data: Bytes, tag: Byte) returns (out: Option<Bytes>)
    ensures out == CanonicalValue(data, tag)
  {
    hide Canonicalized, Converted;
    var text := Convert(data, tag);
    if text.None? { return None; }
    var canonical := CanonicalizeText(text.value);
    return Some(canonical);
  }

  /** A canonical value, stored as UTF8String, is its own canonical value. */
  lemma CanonicalValueIdempotent(data: Bytes, tag: Byte)
    requires CanonicalValue(data, tag).Some?
    ensures CanonicalValue(CanonicalValue(data, tag).value, UTF8_STRING) == CanonicalValue(data, tag)
  {
    CanonicalizedIsIdempotent(Converted(data, tag).value);
  }
}
