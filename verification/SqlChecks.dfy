// Which CHECK constraints the scanner finds (database.go:395-534): every keyword that
// is code, with the text up to the parenthesis that matches its own.
module SqlChecks {
  import opened Policy
  import opened SqlLexer
  import opened SqlScanner
  import opened SqlCapture

  // ------------------------------------------------ CHECKs, by position

  predicate IdentifierByte(t: Token) {
    t.Char? && ('a' <= t.c <= 'z' || 'A' <= t.c <= 'Z' || '0' <= t.c <= '9' || t.c == '_' || t.c == '$')
  }

  predicate Letter(t: Token, small: char, capital: char) { t == Char(small) || t == Char(capital) }

  /** The keyword stands at token k, in any case, and is no part of a longer name. */
  predicate KeywordAt(ts: seq<Token>, k: nat) {
    && k + 5 <= |ts|
    && Letter(ts[k], 'c', 'C') && Letter(ts[k + 1], 'h', 'H') && Letter(ts[k + 2], 'e', 'E')
    && Letter(ts[k + 3], 'c', 'C') && Letter(ts[k + 4], 'k', 'K')
    && (k > 0 ==> !IdentifierByte(ts[k - 1]))
    && (k + 5 < |ts| ==> !IdentifierByte(ts[k + 5]))
  }

  predicate BlankOrComment(t: Token) { t.Comment? || (t.Char? && (t.c == ' ' || '\t' <= t.c <= '\r')) }

  predicate Gap(ts: seq<Token>, a: nat, b: nat)
    requires b <= |ts|
  {
    forall i | a <= i < b :: BlankOrComment(ts[i])
  }

  /** After the keyword at k only blanks and comments come before the parenthesis at m - 1. */
  predicate OpensBody(ts: seq<Token>, k: nat, m: nat) {
    KeywordAt(ts, k) && k + 5 < m <= |ts| && Gap(ts, k + 5, m - 1) && ts[m - 1] == Char('(')
  }

  function Change(t: Token): int { if t == Char('(') then 1 else if t == Char(')') then -1 else 0 }

  /** Open parentheses at token n, the one before m counted. */
  function Depth(ts: seq<Token>, m: nat, n: nat): int
    requires n <= |ts|
  {
    if n <= m then 1 else Depth(ts, m, n - 1) + Change(ts[n - 1])
  }

  /** The parenthesis before m is not closed before token n. */
  ghost predicate StaysOpen(ts: seq<Token>, m: nat, n: nat)
    requires n <= |ts|
  {
    forall j | m <= j <= n :: Depth(ts, m, j) >= 1
  }

  /** Token n closes the parenthesis before m. */
  ghost predicate ClosesBody(ts: seq<Token>, m: nat, n: nat) {
    m <= n < |ts| && ts[n] == Char(')') && StaysOpen(ts, m, n) && Depth(ts, m, n) == 1
  }

  /** A CHECK from its keyword to its closing parenthesis. */
  datatype Span = Span(start: nat, body: nat, end: nat)

  ghost predicate IsCheck(ts: seq<Token>, sp: Span) {
    OpensBody(ts, sp.start, sp.body) && ClosesBody(ts, sp.body, sp.end)
  }

  /** The spans are CHECKs one after the other, and the bodies are what they enclose. */
  ghost predicate Matches(ts: seq<Token>, spans: seq<Span>, bodies: seq<seq<Token>>) {
    && |spans| == |bodies|
    && (forall i | 0 <= i < |spans| :: IsCheck(ts, spans[i]) && bodies[i] == ts[spans[i].body..spans[i].end])
    && (forall i, j | 0 <= i < j < |spans| :: spans[i].end < spans[j].start)
  }

  ghost predicate InSpan(spans: seq<Span>, k: nat) {
    exists i | 0 <= i < |spans| :: spans[i].start <= k <= spans[i].end
  }

  ghost predicate Unterminated(ts: seq<Token>, k: nat) {
    exists m: nat :: OpensBody(ts, k, m) && StaysOpen(ts, m, |ts|)
  }

  ghost predicate EndBefore(spans: seq<Span>, n: nat) { forall i | 0 <= i < |spans| :: spans[i].end < n }

  /** Nothing is found from token k on, where a CHECK opens that is never closed. */
  ghost predicate Swallowed(ts: seq<Token>, spans: seq<Span>, k: nat) {
    exists u: nat :: u <= k && Unterminated(ts, u) && EndBefore(spans, u)
  }

  /** Every CHECK that opens before token n lies in a span. */
  ghost predicate FoundBefore(ts: seq<Token>, spans: seq<Span>, n: nat) {
    forall k: nat, m: nat | OpensBody(ts, k, m) && k < n :: InSpan(spans, k)
  }

  // -------------------------------------------------- the scan, by position

  predicate ApartAt(ts: seq<Token>, p: nat)
    requires p <= |ts|
  {
    p > 0 ==> !IdentifierByte(ts[p - 1])
  }

  lemma KeywordIs(ts: seq<Token>, p: nat)
    requires p <= |ts|
    ensures ApartAt(ts, p) && Keyword(ts[p..]) <==> KeywordAt(ts, p)
  {
    var us := ts[p..];
    if p + 5 <= |ts| {
      assert forall k | 0 <= k < |us| :: us[k] == ts[p + k];
      assert us[0] == ts[p] && us[1] == ts[p + 1] && us[2] == ts[p + 2] && us[3] == ts[p + 3] && us[4] == ts[p + 4];
      FoldIs(us[0], 'c', 'C'); FoldIs(us[1], 'h', 'H'); FoldIs(us[2], 'e', 'E');
      FoldIs(us[3], 'c', 'C'); FoldIs(us[4], 'k', 'K');
      assert "check"[0] == 'c' && "check"[1] == 'h' && "check"[2] == 'e' && "check"[3] == 'c' && "check"[4] == 'k';
      if Keyword(us) {
        assert us[0].Char? && us[1].Char? && us[2].Char? && us[3].Char? && us[4].Char?;
      }
    }
  }

  lemma FoldIs(t: Token, small: char, capital: char)
    requires 'a' <= small <= 'z' && small as int == capital as int + 32
    ensures t.Char? ==> (Fold(t.c) == small <==> Letter(t, small, capital))
    ensures Letter(t, small, capital) ==> t.Char?
  {
  }

  lemma {:induction false} SkipIs(ts: seq<Token>)
    ensures var n := |ts| - |Skip(ts)|;
            Skip(ts) == ts[n..] && Gap(ts, 0, n) && (n < |ts| ==> !BlankOrComment(ts[n]))
  {
    if ts != [] && (ts[0].Comment? || (ts[0].Char? && Blank(ts[0].c))) {
      SkipIs(ts[1..]);
      var n := |ts| - |Skip(ts)|;
      assert ts[1..][n - 1..] == ts[n..];
      forall i | 0 <= i < n ensures BlankOrComment(ts[i]) { if i > 0 { assert ts[i] == ts[1..][i - 1]; } }
      if n < |ts| { assert ts[n] == ts[1..][n - 1]; }
    }
  }

  /** The scan opens a body at p exactly if a CHECK opens there, and then at the same token. */
  lemma OpensIs(ts: seq<Token>, p: nat)
    requires p <= |ts| && KeywordAt(ts, p) && Keyword(ts[p..])
    ensures var m := |ts| - |Skip(ts[p..][5..])| + 1;
            && (Opens(ts[p..]) ==>
                  OpensBody(ts, p, m) && Skip(ts[p..][5..]) != [] && Skip(ts[p..][5..])[1..] == ts[m..])
            && (forall k: nat | OpensBody(ts, p, k) :: Opens(ts[p..]) && k == m)
  {
    hide Keyword, KeywordAt, Skip;
    var rest := RestAfter(ts, p);
    SkipIs(rest);
    var n := |rest| - |Skip(rest)|;
    var m := |ts| - |Skip(rest)| + 1;
    assert forall i | 0 <= i < |rest| :: rest[i] == ts[p + 5 + i];
    assert Gap(ts, p + 5, m - 1) by {
      forall i | p + 5 <= i < m - 1 ensures BlankOrComment(ts[i]) { assert ts[i] == rest[i - p - 5]; }
    }
    if n < |rest| {
      assert ts[m - 1] == rest[n] && !BlankOrComment(ts[m - 1]);
      assert rest[n..][1..] == ts[m..];
    }
    forall k: nat | OpensBody(ts, p, k) ensures Opens(ts[p..]) && k == m {
      assert !BlankOrComment(ts[k - 1]);
      assert m <= k;
    }
  }

  lemma RestAfter(ts: seq<Token>, p: nat) returns (rest: seq<Token>)
    requires KeywordAt(ts, p)
    ensures p + 5 <= |ts| && rest == ts[p..][5..] == ts[p + 5..]
  {
    rest := ts[p + 5..];
  }

  /** The scan stands at token p; if it reads a body, that of the CHECK at k which opens before m. */
  ghost predicate At(ts: seq<Token>, p: nat, g: Gathering, spans: seq<Span>, k: nat, m: nat)
    requires p <= |ts|
  {
    && Matches(ts, spans, g.done) && EndBefore(spans, p)
    && (if g.body.Some? then
          && OpensBody(ts, k, m) && m <= p && EndBefore(spans, k) && FoundBefore(ts, spans, k)
          && g.body.value == ts[m..p] && StaysOpen(ts, m, p) && g.depth == Depth(ts, m, p)
        else FoundBefore(ts, spans, p))
  }

  lemma AtTakes(ts: seq<Token>, p: nat, g: Gathering, spans: seq<Span>, k: nat, m: nat)
    requires p < |ts| && At(ts, p, g, spans, k, m) && g.body.Some?
    requires ts[p] != Char('(') && ts[p] != Char(')')
    ensures At(ts, p + 1, Taken(g, ts[p]), spans, k, m)
  {
    hide OpensBody, Matches, FoundBefore;
    assert ts[m..p] + [ts[p]] == ts[m..p + 1];
  }

  lemma AtParenthesis(ts: seq<Token>, p: nat, g: Gathering, spans: seq<Span>, k: nat, m: nat)
    requires p < |ts| && At(ts, p, g, spans, k, m) && g.body.Some?
    requires ts[p] == Char('(') || (ts[p] == Char(')') && g.depth != 1)
    ensures At(ts, p + 1, TakenByte(g, ts[p]), spans, k, m)
  {
    hide OpensBody, Matches, FoundBefore;
    assert ts[m..p] + [ts[p]] == ts[m..p + 1];
    assert Depth(ts, m, p) >= 1;
  }

  lemma AtCloses(ts: seq<Token>, p: nat, g: Gathering, spans: seq<Span>, k: nat, m: nat)
    requires p < |ts| && At(ts, p, g, spans, k, m) && g.body.Some? && ts[p] == Char(')') && g.depth == 1
    ensures At(ts, p + 1, TakenByte(g, ts[p]), spans + [Span(k, m, p)], k, m)
  {
    hide OpensBody;
    var all := spans + [Span(k, m, p)];
    assert IsCheck(ts, all[|spans|]);
    forall h: nat, n: nat | OpensBody(ts, h, n) && h < p + 1 ensures InSpan(all, h) {
      if h < k {
        var i :| 0 <= i < |spans| && spans[i].start <= h <= spans[i].end;
        assert all[i] == spans[i];
      } else {
        assert all[|spans|].start <= h <= all[|spans|].end;
      }
    }
  }

  lemma AtPasses(ts: seq<Token>, p: nat, g: Gathering, spans: seq<Span>)
    requires p < |ts| && At(ts, p, g, spans, 0, 0) && g.body.None?
    requires !(ApartAt(ts, p) && Keyword(ts[p..]) && Opens(ts[p..]))
    ensures At(ts, p + 1, g, spans, 0, 0)
  {
    hide Matches, Keyword, Opens;
    KeywordIs(ts, p);
    forall h: nat, n: nat | OpensBody(ts, h, n) && h < p + 1 ensures InSpan(spans, h) {
      if h == p { OpensIs(ts, p); }
    }
  }

  lemma AtOpens(ts: seq<Token>, p: nat, g: Gathering, spans: seq<Span>) returns (m: nat)
    requires p < |ts| && At(ts, p, g, spans, 0, 0) && g.body.None?
    requires ApartAt(ts, p) && Keyword(ts[p..]) && Opens(ts[p..])
    ensures p < m <= |ts| && Skip(ts[p..][5..]) != [] && Skip(ts[p..][5..])[1..] == ts[m..] && ApartAt(ts, m)
    ensures At(ts, m, Gathering(g.done, Some([]), 1), spans, p, m)
  {
    hide Matches, Keyword, Opens;
    KeywordIs(ts, p);
    OpensIs(ts, p);
    m := |ts| - |Skip(ts[p..][5..])| + 1;
  }

  lemma {:induction false} SpansFrom(ts: seq<Token>, p: nat, g: Gathering, spans: seq<Span>, k: nat, m: nat)
      returns (found: seq<Span>)
    requires p <= |ts| && At(ts, p, g, spans, k, m)
    ensures Matches(ts, found, Gather(ts[p..], ApartAt(ts, p), g))
    ensures forall h: nat, n: nat | OpensBody(ts, h, n) :: InSpan(found, h) || Swallowed(ts, found, h)
    decreases |ts| - p
  {
    hide At, Matches, OpensBody, Keyword, Opens, Taken, TakenByte, InSpan, Skip;
    if p == |ts| {
      found := spans;
      AtEnd(ts, g, spans, k, m);
      return;
    }
    var us := ts[p..];
    assert us[0] == ts[p] && us[1..] == ts[p + 1..];
    if g.body.Some? {
      var sp := spans;
      if ts[p] == Char(')') && g.depth == 1 {
        AtCloses(ts, p, g, spans, k, m);
        sp := spans + [Span(k, m, p)];
      } else if ts[p] == Char('(') || ts[p] == Char(')') {
        AtParenthesis(ts, p, g, spans, k, m);
      } else {
        AtTakes(ts, p, g, spans, k, m);
        TakenIsTakenByte(g, ts[p]);
      }
      found := SpansFrom(ts, p + 1, if us[0].Char? then TakenByte(g, us[0]) else Taken(g, us[0]), sp, k, m);
    } else if us[0].Char? && ApartAt(ts, p) && Keyword(us) && Opens(us) {
      NoBody(ts, p, g, spans, k, m);
      var b := AtOpens(ts, p, g, spans);
      found := SpansFrom(ts, b, Gathering(g.done, Some([]), 1), spans, p, b);
    } else {
      NoBody(ts, p, g, spans, k, m);
      KeywordStarts(us);
      AtPasses(ts, p, g, spans);
      TakesNothing(g, us[0]);
      found := SpansFrom(ts, p + 1, g, spans, 0, 0);
    }
  }

  lemma NoBody(ts: seq<Token>, p: nat, g: Gathering, spans: seq<Span>, k: nat, m: nat)
    requires p <= |ts| && At(ts, p, g, spans, k, m) && g.body.None?
    ensures At(ts, p, g, spans, 0, 0)
  {
  }

  lemma TakesNothing(g: Gathering, t: Token)
    requires g.body.None?
    ensures Taken(g, t) == g
  {
  }

  lemma TakenIsTakenByte(g: Gathering, t: Token)
    requires g.body.Some? && t != Char('(') && t != Char(')')
    ensures t.Char? ==> TakenByte(g, t) == Taken(g, t)
  {
  }

  lemma KeywordStarts(us: seq<Token>)
    requires us != []
    ensures Keyword(us) ==> us[0].Char?
  {
  }

  lemma OpensInside(ts: seq<Token>, k: nat, m: nat)
    requires OpensBody(ts, k, m)
    ensures k < |ts|
  {
  }

  lemma AtEnd(ts: seq<Token>, g: Gathering, spans: seq<Span>, k: nat, m: nat)
    requires At(ts, |ts|, g, spans, k, m)
    ensures Matches(ts, spans, g.done)
    ensures forall h: nat, n: nat | OpensBody(ts, h, n) :: InSpan(spans, h) || Swallowed(ts, spans, h)
  {
    hide OpensBody, Matches;
    forall h: nat, n: nat | OpensBody(ts, h, n) ensures InSpan(spans, h) || Swallowed(ts, spans, h) {
      if g.body.Some? && k <= h { assert Unterminated(ts, k); }
      OpensInside(ts, h, n);
    }
  }

  /** The bodies are what the CHECKs of the text enclose, up to one that is never closed. */
  lemma ChecksAre(s: string) returns (spans: seq<Span>)
    ensures Matches(Lex(s), spans, Bodies(s))
    ensures forall k: nat, m: nat | OpensBody(Lex(s), k, m) ::
              InSpan(spans, k) || Swallowed(Lex(s), spans, k)
  {
    hide OpensBody, Gather, Keyword, Opens;
    assert Lex(s)[0..] == Lex(s);
    spans := SpansFrom(Lex(s), 0, NOTHING, [], 0, 0);
  }
}
