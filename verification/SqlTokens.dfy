// What the tokens of stored schema text are, by their bytes (database.go:304-347,
// 359-383, 420-477): which text is a comment, which a quoted text and which code.
module SqlTokens {
  import opened SqlLexer

  /** After "--": up to the first newline or, if there is none, to the end. */
  predicate LineBody(x: string, rest: string) {
    if rest == "" && '\n' !in x then true else x != "" && x[|x| - 1] == '\n' && '\n' !in x[..|x| - 1]
  }

  predicate EndsBlock(x: string, k: nat) { k + 1 < |x| && x[k] == '*' && x[k + 1] == '/' }

  /** After the opener of a block comment: up to the first closer or, if there is none, to the end. */
  ghost predicate BlockBody(x: string, rest: string) {
    || (|x| > 1 && EndsBlock(x, |x| - 2) && forall k: nat | k < |x| - 2 :: !EndsBlock(x, k))
    || (rest == "" && forall k: nat :: !EndsBlock(x, k))
  }

  /** The contents with every closer written twice. */
  function Doubled(v: string, closer: char): string {
    if v == "" then "" else (if v[0] == closer then [closer, closer] else [v[0]]) + Doubled(v[1..], closer)
  }

  /** After the opener: some contents v and the closer, or contents to the end of the text. */
  ghost predicate QuoteBody(x: string, closer: char, rest: string) { exists v :: Quotes(v, x, closer, rest) }

  ghost predicate Quotes(v: string, x: string, closer: char, rest: string) {
    && (closer == ']' ==> closer !in v)
    && (|| (x == Doubled(v, closer) + [closer] && (closer != ']' && rest != "" ==> rest[0] != closer))
        || (x == Doubled(v, closer) && rest == ""))
  }

  /** The token t in front of the text rest. */
  ghost predicate TokenBefore(t: Token, rest: string) {
    match t
    case Comment(x) =>
      && |x| > 1
      && ((x[..2] == "--" && LineBody(x[2..], rest)) || (x[..2] == "/*" && BlockBody(x[2..], rest)))
    case Quoted(x) =>
      && x != "" && (x[0] == '\'' || x[0] == '"' || x[0] == '`' || x[0] == '[')
      && QuoteBody(x[1..], if x[0] == '[' then ']' else x[0], rest)
    case Char(c) =>
      && c != '\'' && c != '"' && c != '`' && c != '['
      && !(c == '-' && rest != "" && rest[0] == '-') && !(c == '/' && rest != "" && rest[0] == '*')
  }

  // ------------------------------------------------------ lengths of bodies

  lemma {:induction false} LineIs(x: string, rest: string)
    ensures LineLen(x + rest) == |x| <==> LineBody(x, rest)
  {
    var t := x + rest;
    if x == "" {
      assert t == rest;
    } else if x[0] == '\n' {
      assert |x| > 1 ==> x[..|x| - 1][0] == '\n';
    } else {
      LineIs(x[1..], rest);
      assert t[1..] == x[1..] + rest && t[0] == x[0];
      assert x == [x[0]] + x[1..];
      if |x| > 1 { assert x[..|x| - 1] == [x[0]] + x[1..][..|x| - 2] && x[1..][|x| - 2] == x[|x| - 1]; }
    }
  }

  lemma {:induction false} BlockIs(x: string, rest: string)
    ensures BlockLen(x + rest) == |x| <==> BlockBody(x, rest)
  {
    var t := x + rest;
    if |x| < 2 {
      assert x == "" ==> t == rest;
      assert forall k: nat :: !EndsBlock(x, k);
      if |t| >= 2 && |x| == 1 { BlockPositive(t[1..]); }
    } else if EndsBlock(x, 0) {
      assert t[0] == x[0] && t[1] == x[1];
    } else {
      var y := x[1..];
      BlockIs(y, rest);
      assert t[1..] == y + rest && t[0] == x[0] && t[1] == x[1];
      assert forall k: nat | k > 0 :: EndsBlock(x, k) <==> EndsBlock(y, k - 1);
      assert forall k: nat :: EndsBlock(y, k) <==> EndsBlock(x, k + 1);
    }
  }

  lemma BlockPositive(r: string)
    ensures r != "" ==> BlockLen(r) > 0
  {
  }

  lemma {:induction false} QuoteRead(r: string, closer: char) returns (v: string)
    ensures var n := QuoteLen(r, closer, closer != ']'); Quotes(v, r[..n], closer, r[n..])
    decreases |r|
  {
    var n := QuoteLen(r, closer, closer != ']');
    if r == "" {
      v := "";
    } else if r[0] != closer {
      var w := QuoteRead(r[1..], closer);
      v := [r[0]] + w;
      assert v[1..] == w && r[..n] == [r[0]] + r[1..][..n - 1] && r[n..] == r[1..][n - 1..];
      assert Doubled(v, closer) == [r[0]] + Doubled(w, closer);
    } else if closer != ']' && |r| > 1 && r[1] == closer {
      var w := QuoteRead(r[2..], closer);
      v := [closer] + w;
      assert v[1..] == w && r[..n] == [closer, closer] + r[2..][..n - 2] && r[n..] == r[2..][n - 2..];
      assert Doubled(v, closer) == [closer, closer] + Doubled(w, closer);
    } else {
      v := "";
      assert r[..n] == [closer] && (n < |r| ==> r[n..][0] == r[1]);
    }
  }

  lemma {:induction false} QuoteEnds(v: string, x: string, closer: char, rest: string)
    requires Quotes(v, x, closer, rest)
    ensures QuoteLen(x + rest, closer, closer != ']') == |x|
  {
    var t := x + rest;
    if v == "" {
      assert x == "" ==> t == "";
      assert x != "" ==> t[0] == closer && (|t| > 1 ==> t[1] == rest[0]);
    } else {
      var w := v[1..];
      var y := if v[0] == closer then x[2..] else x[1..];
      QuotesRest(v, x, closer, rest, y);
      QuoteEnds(w, y, closer, rest);
    }
  }

  lemma QuotesRest(v: string, x: string, closer: char, rest: string, y: string)
    requires v != "" && Quotes(v, x, closer, rest) && |x| > 0 && (v[0] == closer ==> |x| > 1)
    requires y == if v[0] == closer then x[2..] else x[1..]
    ensures Quotes(v[1..], y, closer, rest)
    ensures x + rest == (if v[0] == closer then [closer, closer] else [v[0]]) + (y + rest)
    ensures v[0] == closer ==> closer != ']'
  {
    var d := Doubled(v[1..], closer);
    var e := if v[0] == closer then [closer, closer] else [v[0]];
    assert Doubled(v, closer) == e + d;
    hide Doubled;
    var tail := if x == Doubled(v, closer) then "" else [closer];
    if tail == "" { assert (e + d) + tail == e + d; }
    CutFront(e, d, tail, x, rest);
    if tail == "" { assert d + tail == d; }
  }

  lemma CutFront(e: string, d: string, tail: string, x: string, rest: string)
    requires x == (e + d) + tail
    ensures x[|e|..] == d + tail && x + rest == e + (x[|e|..] + rest)
  {
  }

  // ------------------------------------------------------------ the tokens

  lemma FirstIs(t: Token, rest: string)
    requires Text(t) != ""
    ensures First(Text(t) + rest) == t <==> TokenBefore(t, rest)
  {
    hide LineLen, BlockLen, QuoteLen, QuoteBody, LineBody, BlockBody;
    var x := Text(t);
    var s := x + rest;
    assert s[..|x|] == x;
    if |x| > 1 {
      assert s[2..] == x[2..] + rest;
      LineIs(x[2..], rest);
      BlockIs(x[2..], rest);
    }
    assert s[1..] == x[1..] + rest;
    QuoteIs(x[1..], if x[0] == '[' then ']' else x[0], rest);
  }

  lemma QuoteIs(x: string, closer: char, rest: string)
    ensures QuoteLen(x + rest, closer, closer != ']') == |x| <==> QuoteBody(x, closer, rest)
  {
    var r := x + rest;
    if QuoteLen(r, closer, closer != ']') == |x| {
      var v := QuoteRead(r, closer);
      assert r[..|x|] == x && r[|x|..] == rest;
    }
    if QuoteBody(x, closer, rest) {
      var v :| Quotes(v, x, closer, rest);
      QuoteEnds(v, x, closer, rest);
    }
  }

  /** Every token is one before the text of those after it. */
  ghost predicate TokensStand(ts: seq<Token>) {
    ts == [] || (Text(ts[0]) != "" && TokenBefore(ts[0], Unlex(ts[1..])) && TokensStand(ts[1..]))
  }

  lemma FirstCut(s: string, t: Token, q: string)
    requires s != "" && Text(t) != "" && s == Text(t) + q
    ensures First(s) == t <==> TokenBefore(t, q)
    ensures First(s) == t ==> s[FirstLen(s)..] == q
  {
    hide TokenBefore, First, FirstLen;
    FirstIs(t, q);
    FirstText(s);
  }

  /** The tokens are the one way to cut the text into comments, quoted texts and code bytes. */
  lemma {:induction false} TokensAre(s: string, ts: seq<Token>)
    ensures Lex(s) == ts <==> Unlex(ts) == s && TokensStand(ts)
    decreases |s|
  {
    hide TokenBefore, First, FirstLen;
    if ts == [] { return; }
    var t, rest := ts[0], ts[1..];
    assert ts == [t] + rest;
    if s == "" {
      if Text(t) != "" { UnlexStarts(ts); }
      return;
    }
    FirstText(s);
    var q := s[FirstLen(s)..];
    TokensAre(q, rest);
    UnlexLex(q);
    if Text(t) != "" && Unlex(ts) == s { FirstCut(s, t, Unlex(rest)); }
    if First(s) == t { FirstCut(s, t, q); }
  }
}
