// What a captured CHECK expression is of its source text. The scanner drops the
// comments inside a CHECK and normalizes the bytes that are left as a new text
// (database.go:385-394, 511-524): code bytes that a comment kept apart can then
// open a comment of their own.
module SqlCapture {
  import opened Policy
  import opened SqlLexer
  import opened SqlScanner

  // ------------------------------------------------ the tokens captured

  /** Bodies found, the tokens of the body being read if any, and its open parentheses. */
  datatype Gathering = Gathering(done: seq<seq<Token>>, body: Option<seq<Token>>, depth: int)

  function Taken(g: Gathering, t: Token): Gathering {
    if g.body.Some? then g.(body := Some(g.body.value + [t])) else g
  }

  function TakenByte(g: Gathering, t: Token): Gathering
    requires g.body.Some? && t.Char?
  {
    if t.c == '(' then Taken(g, t).(depth := g.depth + 1)
    else if t.c == ')' && g.depth == 1 then Gathering(g.done + [g.body.value], None, 0)
    else if t.c == ')' then Taken(g, t).(depth := g.depth - 1)
    else Taken(g, t)
  }

  /** The tokens between the parentheses of every CHECK, comments included. */
  function Gather(ts: seq<Token>, apart: bool, g: Gathering): seq<seq<Token>>
    decreases |ts|
  {
    if ts == [] then g.done
    else if !ts[0].Char? then Gather(ts[1..], true, Taken(g, ts[0]))
    else if g.body.Some? then Gather(ts[1..], !Ident(ts[0].c), TakenByte(g, ts[0]))
    else if apart && Keyword(ts) && Opens(ts) then Gather(Skip(ts[5..])[1..], true, Gathering(g.done, Some([]), 1))
    else Gather(ts[1..], !Ident(ts[0].c), g)
  }

  const NOTHING: Gathering := Gathering([], None, 0)

  function Bodies(s: string): seq<seq<Token>> { Gather(Lex(s), true, NOTHING) }

  function Expressions(bodies: seq<seq<Token>>): (es: seq<string>)
    ensures |es| == |bodies|
  {
    seq(|bodies|, i requires 0 <= i < |bodies| => Normalize(Kept(bodies[i])))
  }

  function CaptureOf(g: Gathering): Capture {
    Capture(Expressions(g.done), if g.body.Some? then Some(Kept(g.body.value)) else None, g.depth)
  }

  lemma {:induction false} KeptAppend(ts: seq<Token>, t: Token)
    ensures Kept(ts + [t]) == if t.Comment? then Kept(ts) else Kept(ts) + Text(t)
  {
    if ts == [] {
      assert (ts + [t])[1..] == [] && ts + [t] == [t];
    } else {
      KeptAppend(ts[1..], t);
      assert (ts + [t])[1..] == ts[1..] + [t];
    }
  }

  lemma CaptureTakes(g: Gathering, t: Token)
    ensures CaptureOf(Taken(g, t)) == if t.Comment? then CaptureOf(g) else Append(CaptureOf(g), Text(t))
    ensures g.body.Some? && t.Char? ==> CaptureOf(TakenByte(g, t)) == Captured(CaptureOf(g), t.c)
  {
    hide Normalize, Kept;
    if g.body.Some? {
      KeptAppend(g.body.value, t);
      assert Expressions(g.done + [g.body.value]) == Expressions(g.done) + [Normalize(Kept(g.body.value))];
    }
  }

  /** The scan yields the normalized text of every body without its comments. */
  lemma {:induction false} ScanGathers(ts: seq<Token>, apart: bool, g: Gathering)
    ensures Scan(ts, apart, CaptureOf(g)) == Expressions(Gather(ts, apart, g))
    decreases |ts|
  {
    hide Keyword, Captured, Append, Taken, TakenByte, Expressions, Kept, Opens;
    if ts == [] { return; }
    CaptureTakes(g, ts[0]);
    if !ts[0].Char? {
      ScanGathers(ts[1..], true, Taken(g, ts[0]));
    } else if g.body.Some? {
      ScanGathers(ts[1..], !Ident(ts[0].c), TakenByte(g, ts[0]));
    } else if apart && Keyword(ts) && Opens(ts) {
      OpensAt(ts);
      ScanGathers(Skip(ts[5..])[1..], true, Gathering(g.done, Some([]), 1));
      EmptyBody();
    } else {
      ScanGathers(ts[1..], !Ident(ts[0].c), g);
    }
  }

  lemma OpensAt(ts: seq<Token>)
    requires Keyword(ts) && Opens(ts)
    ensures |ts| >= 5 && Skip(ts[5..]) != []
  {
  }

  lemma EmptyBody()
    ensures Kept([]) == ""
  {
  }

  // -------------------------------------------- bodies are slices of the text

  ghost predicate Between(all: seq<Token>, m: nat, n: nat, b: seq<Token>) { m <= n <= |all| && b == all[m..n] }

  /** A run of tokens of the text that does not reach its end. */
  ghost predicate Slice(all: seq<Token>, b: seq<Token>) {
    exists m: nat, n: nat :: n < |all| && Between(all, m, n, b)
  }

  ghost predicate EndsAt(all: seq<Token>, n: nat, b: seq<Token>) { exists m: nat :: Between(all, m, n, b) }

  ghost predicate Position(all: seq<Token>, ts: seq<Token>, g: Gathering) {
    && |ts| <= |all| && all[|all| - |ts|..] == ts
    && (forall b | b in g.done :: Slice(all, b))
    && (g.body.Some? ==> EndsAt(all, |all| - |ts|, g.body.value))
  }

  lemma PositionTakes(all: seq<Token>, ts: seq<Token>, g: Gathering)
    requires Position(all, ts, g) && ts != []
    ensures Position(all, ts[1..], Taken(g, ts[0]))
    ensures g.body.Some? && ts[0].Char? ==> Position(all, ts[1..], TakenByte(g, ts[0]))
  {
    var p := |all| - |ts|;
    assert all[p..][0] == all[p] && all[p + 1..] == ts[1..];
    if g.body.Some? {
      var m: nat :| Between(all, m, p, g.body.value);
      assert Between(all, m, p + 1, g.body.value + [ts[0]]);
      assert Slice(all, g.body.value);
    }
  }

  lemma {:induction false} GatherSlices(all: seq<Token>, ts: seq<Token>, apart: bool, g: Gathering)
    requires Position(all, ts, g)
    ensures forall b | b in Gather(ts, apart, g) :: Slice(all, b)
    decreases |ts|
  {
    hide Keyword, Taken, TakenByte, Opens, Slice, Position;
    if ts == [] {
      PositionDone(all, ts, g);
      return;
    }
    PositionTakes(all, ts, g);
    if !ts[0].Char? {
      GatherSlices(all, ts[1..], true, Taken(g, ts[0]));
    } else if g.body.Some? {
      GatherSlices(all, ts[1..], !Ident(ts[0].c), TakenByte(g, ts[0]));
    } else if apart && Keyword(ts) && Opens(ts) {
      OpensAt(ts);
      PositionSkips(all, ts, g);
      GatherSlices(all, Skip(ts[5..])[1..], true, Gathering(g.done, Some([]), 1));
    } else {
      PositionPasses(all, ts, g);
      GatherSlices(all, ts[1..], !Ident(ts[0].c), g);
    }
  }

  lemma PositionDone(all: seq<Token>, ts: seq<Token>, g: Gathering)
    requires Position(all, ts, g)
    ensures forall b | b in g.done :: Slice(all, b)
  {
  }

  lemma PositionPasses(all: seq<Token>, ts: seq<Token>, g: Gathering)
    requires Position(all, ts, g) && ts != [] && g.body.None?
    ensures Position(all, ts[1..], g)
  {
    assert all[|all| - |ts| + 1..] == ts[1..];
  }

  lemma {:induction false} SkipIsSuffix(ts: seq<Token>)
    ensures ts[|ts| - |Skip(ts)|..] == Skip(ts)
  {
    if ts != [] && (ts[0].Comment? || (ts[0].Char? && Blank(ts[0].c))) { SkipIsSuffix(ts[1..]); }
  }

  lemma PositionSkips(all: seq<Token>, ts: seq<Token>, g: Gathering)
    requires Position(all, ts, g) && |ts| >= 5 && Skip(ts[5..]) != []
    ensures Position(all, Skip(ts[5..])[1..], Gathering(g.done, Some([]), 1))
  {
    hide Skip, Slice;
    SkipIsSuffix(ts[5..]);
    var rest := Skip(ts[5..]);
    var p := |all| - |rest| + 1;
    assert all[|all| - |rest|..] == rest;
    assert all[p..] == rest[1..] && Between(all, p, p, []);
  }

  // ---------------------------------------------- lexing the joined bytes

  /** Two code bytes that open a comment when they stand side by side. */
  predicate Opening(a: Token, b: Token) {
    (a == Char('-') && b == Char('-')) || (a == Char('/') && b == Char('*'))
  }

  /** A byte t and the first code token of b open a comment. */
  predicate OpensWith(t: Token, b: seq<Token>) {
    b != [] && if b[0].Comment? then OpensWith(t, b[1..]) else Opening(t, b[0])
  }

  /** Somewhere in b two code bytes with nothing but comments between them open a comment. */
  predicate Joins(b: seq<Token>) { b != [] && (OpensWith(b[0], b[1..]) || Joins(b[1..])) }

  ghost predicate Shaped(t: Token) { if t.Char? then !Opener(t.c) else Closed(t) }

  lemma {:induction false} LexShape(s: string, k: nat)
    requires k + 1 < |Lex(s)|
    ensures Shaped(Lex(s)[k]) && !Opening(Lex(s)[k], Lex(s)[k + 1])
    decreases |s|
  {
    hide Closed, FirstLen;
    var r := s[FirstLen(s)..];
    FirstText(s);
    if k > 0 {
      LexShape(r, k - 1);
    } else {
      assert r != "";
      FirstIsClosed(First(s), r);
      FirstText(r);
      if First(s).Char? && First(r).Char? { assert s[1] == r[0]; }
    }
  }

  function Code(b: seq<Token>): seq<Token> {
    if b == [] then [] else if b[0].Comment? then Code(b[1..]) else [b[0]] + Code(b[1..])
  }

  lemma {:induction false} KeptIsCode(b: seq<Token>)
    ensures Kept(b) == Unlex(Code(b))
    ensures forall t | t in Code(b) :: t in b && !t.Comment?
  {
    if b != [] { KeptIsCode(b[1..]); }
  }

  predicate NeighboursJoin(us: seq<Token>) { |us| > 1 && (Opening(us[0], us[1]) || NeighboursJoin(us[1..])) }

  lemma NeighboursFirst(t: Token, us: seq<Token>)
    ensures NeighboursJoin([t] + us) <==> (us != [] && Opening(t, us[0])) || NeighboursJoin(us)
  {
    assert ([t] + us)[1..] == us;
  }

  lemma {:induction false} FirstCode(t: Token, b: seq<Token>)
    ensures OpensWith(t, b) <==> Code(b) != [] && Opening(t, Code(b)[0])
  {
    if b != [] { FirstCode(t, b[1..]); }
  }

  lemma {:induction false} JoinsIff(b: seq<Token>)
    ensures Joins(b) <==> NeighboursJoin(Code(b))
  {
    hide Opening;
    if b != [] {
      JoinsIff(b[1..]);
      FirstCode(b[0], b[1..]);
      if b[0].Comment? { CommentOpensNothing(b[0]); } else { NeighboursFirst(b[0], Code(b[1..])); }
    }
  }

  lemma CommentOpensNothing(t: Token)
    requires t.Comment?
    ensures forall u :: !Opening(t, u)
  {
  }

  // ----------------------------------------------------- the re-lexed text

  ghost predicate NoComment(ts: seq<Token>) { forall t | t in ts :: !t.Comment? }

  lemma {:induction false} QuotesMerge(a: string, c: char, b: string)
    requires ClosesLast(a, c, true) && ClosesLast(b, c, true)
    ensures ClosesLast(a + [c] + b, c, true)
    decreases |a|
  {
    var t := a + [c] + b;
    if a[0] != c {
      assert t[1..] == a[1..] + [c] + b;
      QuotesMerge(a[1..], c, b);
    } else if |a| > 1 && a[1] == c {
      assert t[2..] == a[2..] + [c] + b;
      QuotesMerge(a[2..], c, b);
    } else {
      assert t[2..] == b;
    }
  }

  /** Both quoted with the same closer, and the closer is one that doubles. */
  ghost predicate Merges(t: Token, u: Token) {
    t.Quoted? && u.Quoted? && t.text != "" && u.text != "" && t.text[0] == u.text[0] && t.text[0] != '['
  }

  /** Quoted texts standing side by side read as one with a doubled closer. */
  lemma MergedIsClosed(t: Token, u: Token)
    requires Merges(t, u) && Closed(t) && Closed(u)
    ensures Closed(Quoted(t.text + u.text))
  {
    var c, x, y := t.text[0], t.text[1..], u.text[1..];
    QuotesMerge(x, c, y);
    assert t.text + u.text == [c] + (x + [c] + y) && (t.text + u.text)[1..] == x + [c] + y;
  }

  /** Code tokens put side by side read back without a comment exactly when no two
      neighbours open one. */
  lemma {:induction false} JoinedLex(us: seq<Token>)
    requires forall t | t in us :: Shaped(t) && !t.Comment?
    ensures NoComment(Lex(Unlex(us))) <==> !NeighboursJoin(us)
    decreases |us|
  {
    hide Closed, NoComment, Lex, Unlex;
    if us == [] {
      EmptyLex();
      return;
    }
    var t, rest := us[0], us[1..];
    assert us == [t] + rest && us[0] in us;
    forall u | u in rest ensures Shaped(u) && !u.Comment? { assert u in us; }
    NeighboursFirst(t, rest);
    if rest != [] && Merges(t, rest[0]) {
      var merged := Quoted(t.text + rest[0].text);
      MergedIsClosed(t, rest[0]);
      MergedUnlex(t, rest);
      JoinedLex([merged] + rest[1..]);
      NeighboursFirst(merged, rest[1..]);
      assert rest == [rest[0]] + rest[1..];
      NeighboursFirst(rest[0], rest[1..]);
    } else {
      JoinedLex(rest);
      if t.Char? { CharFirst(t.c, rest); } else { QuotedFirst(t, rest); }
    }
  }

  lemma MergedUnlex(t: Token, rest: seq<Token>)
    requires rest != [] && Merges(t, rest[0])
    ensures Unlex([Quoted(t.text + rest[0].text)] + rest[1..]) == Unlex([t] + rest)
  {
    var merged := Quoted(t.text + rest[0].text);
    assert ([merged] + rest[1..])[1..] == rest[1..] && ([t] + rest)[1..] == rest;
  }

  lemma EmptyLex()
    ensures Unlex([]) == "" && NoComment(Lex(""))
  {
  }

  lemma NoCommentFirst(t: Token, ts: seq<Token>)
    ensures NoComment([t] + ts) <==> !t.Comment? && NoComment(ts)
  {
    assert t in [t] + ts;
    assert forall u | u in ts :: u in [t] + ts;
  }

  lemma CharFirst(c: char, rest: seq<Token>)
    requires !Opener(c) && forall t | t in rest :: Shaped(t) && !t.Comment?
    ensures var s := Unlex([Char(c)] + rest);
            NoComment(Lex(s)) <==> !(rest != [] && Opening(Char(c), rest[0])) && NoComment(Lex(Unlex(rest)))
  {
    hide NoComment, Closed, Unlex, LineLen, BlockLen;
    var r := Unlex(rest);
    var s := [c] + r;
    CharUnlex(c, rest);
    if rest != [] { assert rest[0] in rest; RestStarts(rest); } else { EmptyLex(); }
    assert s[0] == c && s[1..] == r;
    LexUnfolds(s);
    NoCommentFirst(First(s), Lex(s[FirstLen(s)..]));
  }

  lemma LexUnfolds(s: string)
    requires s != ""
    ensures Lex(s) == [First(s)] + Lex(s[FirstLen(s)..])
  {
  }

  lemma CharUnlex(c: char, rest: seq<Token>)
    ensures Unlex([Char(c)] + rest) == [c] + Unlex(rest)
  {
    assert ([Char(c)] + rest)[1..] == rest;
  }

  /** The first byte of a code token tells a plain byte from a quoted text. */
  lemma RestStarts(rest: seq<Token>)
    requires rest != [] && Shaped(rest[0]) && !rest[0].Comment?
    ensures Unlex(rest) != "" && Unlex(rest)[0] == (if rest[0].Char? then rest[0].c else rest[0].text[0])
    ensures rest[0].Quoted? ==> Opener(Unlex(rest)[0])
  {
  }

  lemma QuotedFirst(t: Token, rest: seq<Token>)
    requires t.Quoted? && Closed(t) && forall u | u in rest :: Shaped(u) && !u.Comment?
    requires rest == [] || !Merges(t, rest[0])
    ensures NoComment(Lex(Unlex([t] + rest))) <==> NoComment(Lex(Unlex(rest)))
    ensures !(rest != [] && Opening(t, rest[0]))
  {
    hide NoComment, Lex;
    if rest != [] { assert rest[0] in rest; RestStarts(rest); }
    assert ([t] + rest)[1..] == rest;
    ClosedIsFirst(t, Unlex(rest));
    NoCommentFirst(t, Lex(Unlex(rest)));
  }

  // ------------------------------------------------------------- theorems

  lemma {:induction false} SqueezeConcat(a: string, b: string)
    ensures Squeeze(a + b) == Squeeze(a) + Squeeze(b)
  {
    hide Fold, Blank;
    if a == "" {
      assert a + b == b;
    } else {
      SqueezeConcat(a[1..], b);
      assert (a + b)[1..] == a[1..] + b;
    }
  }

  lemma CommentIsNotBlank(s: string)
    requires s != "" && First(s).Comment?
    ensures Squeeze(Text(First(s))) != ""
  {
    var x := Text(First(s));
    assert x[0] == s[0];
  }

  /** Dropping a comment shortens a text, so a normal form spells the whole text only
      if there is none. */
  lemma {:induction false} SqueezeKept(s: string)
    ensures |Squeeze(Kept(Lex(s)))| <= |Squeeze(s)|
    ensures NoComment(Lex(s)) <==> Squeeze(Kept(Lex(s))) == Squeeze(s)
    ensures !NoComment(Lex(s)) ==> |Squeeze(Kept(Lex(s)))| < |Squeeze(s)|
    decreases |s|
  {
    hide NoComment, First, FirstLen, Squeeze;
    if s == "" {
      EmptyLex();
    } else {
      var r := s[FirstLen(s)..];
      FirstText(s);
      SqueezeKept(r);
      SqueezeConcat(Text(First(s)), r);
      NoCommentFirst(First(s), Lex(r));
      if First(s).Comment? { CommentIsNotBlank(s); } else { SqueezeConcat(Text(First(s)), Kept(Lex(r))); }
    }
  }

  /** Every body is a run of tokens of the text, in which no two bytes that stand
      side by side open a comment. */
  lemma BodiesAreSlices(s: string)
    ensures forall b | b in Bodies(s) :: Slice(Lex(s), b)
    ensures forall b, k: nat | b in Bodies(s) && k + 1 < |b| :: !Opening(b[k], b[k + 1])
    ensures forall b, k: nat | b in Bodies(s) && k < |b| :: Shaped(b[k])
  {
    hide Gather, Slice, Shaped, Opening, Lex;
    var all := Lex(s);
    assert all[|all| - |all|..] == all;
    GatherSlices(all, all, true, NOTHING);
    forall b, k: nat | b in Bodies(s) && k < |b|
      ensures Shaped(b[k]) && (k + 1 < |b| ==> !Opening(b[k], b[k + 1]))
    {
      SliceShape(s, b, k);
    }
  }

  lemma SliceShape(s: string, b: seq<Token>, k: nat)
    requires Slice(Lex(s), b) && k < |b|
    ensures Shaped(b[k]) && (k + 1 < |b| ==> !Opening(b[k], b[k + 1]))
  {
    hide Shaped, Opening, Lex;
    var m: nat, n: nat :| n < |Lex(s)| && Between(Lex(s), m, n, b);
    LexShape(s, m + k);
  }

  /** The i-th expression is the code of the i-th CHECK, squeezed, exactly when no two of
      its code bytes with only comments between them open a comment. */
  lemma ExpressionIsCodeIff(s: string, i: nat)
    requires i < |Bodies(s)|
    ensures |Checks(s)| == |Bodies(s)|
    ensures Checks(s)[i] == Squeeze(Kept(Bodies(s)[i])) <==> !Joins(Bodies(s)[i])
  {
    hide Gather, Slice, Shaped, Opening, Lex, Joins, Squeeze;
    var b := Bodies(s)[i];
    ScanGathers(Lex(s), true, NOTHING);
    BodiesAreSlices(s);
    KeptIsCode(b);
    JoinsIff(b);
    forall t | t in Code(b) ensures Shaped(t) && !t.Comment? { var k :| 0 <= k < |b| && b[k] == t; }
    JoinedLex(Code(b));
    SqueezeKept(Kept(b));
  }

  // -------------------------------------------------------------- witness

  lemma LexByte(c: char, r: string)
    requires !Opener(c) && (r != "" ==> !Opening(Char(c), Char(r[0])))
    ensures Lex([c] + r) == [Char(c)] + Lex(r)
  {
    var s := [c] + r;
    assert s[1..] == r && (r != "" ==> s[1] == r[0]);
  }

  lemma WordLex(w: string, r: string)
    requires forall k | 0 <= k < |w| :: 'A' <= w[k] <= 'Z'
    ensures |Lex(w + r)| == |w| + |Lex(r)| && Lex(w + r)[|w|..] == Lex(r)
    ensures forall k | 0 <= k < |w| :: Lex(w + r)[k] == Char(w[k])
  {
    hide Lex;
    if w == "" {
      assert w + r == r;
    } else {
      WordLex(w[1..], r);
      assert w + r == [w[0]] + (w[1..] + r);
      LexByte(w[0], w[1..] + r);
      forall k | 0 < k < |w| ensures Lex(w + r)[k] == Char(w[k]) { assert w[1..][k - 1] == w[k]; }
    }
  }

  /** After "CHECK(" the scan captures, whatever follows. */
  lemma CheckOpens(r: string)
    ensures Checks("CHECK(" + r) == Scan(Lex(r), true, Capture([], Some(""), 1))
  {
    hide Lex, Scan;
    var t := "(" + r;
    WordLex("CHECK", t);
    LexByte('(', r);
    assert "CHECK(" + r == "CHECK" + t && t == ['('] + r;
    KeywordOpens(Lex("CHECK(" + r), Lex(r));
  }

  lemma KeywordOpens(ts: seq<Token>, rest: seq<Token>)
    requires |ts| > 5 && ts[5..] == [Char('(')] + rest && forall k | 0 <= k < 5 :: ts[k] == Char("CHECK"[k])
    ensures Scan(ts, true, START) == Scan(rest, true, Capture([], Some(""), 1))
  {
    assert ts[5] == ts[5..][0] == Char('(');
    assert Keyword(ts) && Skip(ts[5..]) == ts[5..] && ts[5..][1..] == rest;
    assert ts[0] == Char('C');
  }

  /** The last parenthesis ends the expression. */
  lemma CheckCloses(c: char, buf: string)
    requires !Opener(c) && c != '(' && c != ')' && c != '-' && c != '/'
    ensures Scan(Lex([c] + ")"), true, Capture([], Some(buf), 1)) == [Normalize(buf + [c])]
  {
    hide Normalize, Lex;
    LexByte(c, ")");
    LexByte(')', "");
    EmptyLexes();
    var close := [Char(')')];
    assert ")" == [')'] + "" && Lex(")") == close;
    assert Lex([c] + ")") == [Char(c)] + close && ([Char(c)] + close)[1..] == close;
    var st := Capture([], Some(buf + [c]), 1);
    assert Scan([Char(c)] + close, true, Capture([], Some(buf), 1)) == Scan(close, !Ident(c), st);
    assert Captured(st, ')').exprs == [Normalize(buf + [c])];
  }

  lemma EmptyLexes()
    ensures Lex("") == []
  {
  }

  /** A comment between two bytes that open one: the code after it is lost, and the
      expression is that of a shorter CHECK. A blank between them loses nothing. */
  lemma SplitOperatorLosesCode()
    ensures Checks("CHECK(a-/**/-b)") == ["a"] == Checks("CHECK(a)")
    ensures Checks("CHECK(a- -b)") == ["a--b"]
  {
    hide Lex, Normalize, Scan, Checks;
    CheckOpens("a-/**/-b)");
    CheckOpens("a- -b)");
    assert "CHECK(" + "a-/**/-b)" == "CHECK(a-/**/-b)" && "CHECK(" + "a- -b)" == "CHECK(a- -b)";
    SplitTokens();
    CheckOpens("a)");
    CheckCloses('a', "");
    assert "CHECK(" + "a)" == "CHECK(a)" && ['a'] + ")" == "a)" && "" + ['a'] == "a";
    NormalizedByte();
    NormalizedSplit();
    NormalizedApart();
  }

  /** Comments and plain bytes inside a capture. */
  lemma {:induction false} ScanPasses(pre: seq<Token>, tail: seq<Token>, apart: bool, st: Capture)
    requires st.buf.Some? && forall t | t in pre :: t.Comment? || (t.Char? && t.c != '(' && t.c != ')')
    ensures Scan(pre + tail, apart, st) == Scan(tail, true, st.(buf := Some(st.buf.value + Kept(pre))))
    decreases |pre|
  {
    if pre == [] {
      assert pre + tail == tail && st.buf.value + Kept(pre) == st.buf.value;
    } else {
      var t := pre[0];
      assert t in pre && (pre + tail)[1..] == pre[1..] + tail;
      var next := if t.Comment? then st else Append(st, [t.c]);
      assert st.buf.value + Kept(pre) == next.buf.value + Kept(pre[1..]);
      ScanPasses(pre[1..], tail, t.Comment? || !Ident(t.c), next);
    }
  }

  const SPLIT: seq<Token> := [Char('a'), Char('-'), Comment("/**/"), Char('-')]
  const SPACED: seq<Token> := [Char('a'), Char('-'), Char(' '), Char('-')]

  lemma SplitTokens()
    ensures Scan(Lex("a-/**/-b)"), true, Capture([], Some(""), 1)) == [Normalize("a--b")]
    ensures Scan(Lex("a- -b)"), true, Capture([], Some(""), 1)) == [Normalize("a- -b")]
  {
    hide Lex, Normalize, Scan;
    SplitLex();
    SpacedLex();
    SplitKept();
    CheckCloses('b', "a--");
    CheckCloses('b', "a- -");
    assert ['b'] + ")" == "b)" && "a--" + ['b'] == "a--b" && "a- -" + ['b'] == "a- -b";
    ScanPasses(SPLIT, Lex("b)"), true, Capture([], Some(""), 1));
    ScanPasses(SPACED, Lex("b)"), true, Capture([], Some(""), 1));
  }

  lemma SplitLex()
    ensures Lex("a-/**/-b)") == SPLIT + Lex("b)")
  {
    hide Lex;
    assert "a-/**/-b)" == ['a'] + "-/**/-b)" && "-/**/-b)" == ['-'] + "/**/-b)" && "/**/-b)" == "/**/" + "-b)" &&
           "-b)" == ['-'] + "b)";
    LexByte('a', "-/**/-b)");
    LexByte('-', "/**/-b)");
    assert "/**/"[2..] == "*/" && BlockLen("*/") == 2;
    ClosedIsFirst(Comment("/**/"), "-b)");
    LexByte('-', "b)");
  }

  lemma SpacedLex()
    ensures Lex("a- -b)") == SPACED + Lex("b)")
  {
    hide Lex;
    assert "a- -b)" == ['a'] + "- -b)" && "- -b)" == ['-'] + " -b)" && " -b)" == [' '] + "-b)" && "-b)" == ['-'] + "b)";
    LexByte('a', "- -b)");
    LexByte('-', " -b)");
    LexByte(' ', "-b)");
    LexByte('-', "b)");
  }

  lemma SplitKept()
    ensures "" + Kept(SPLIT) == "a--" && "" + Kept(SPACED) == "a- -"
  {
    KeptAppend(SPLIT[..3], SPLIT[3]); KeptAppend(SPLIT[..2], SPLIT[2]);
    KeptAppend(SPLIT[..1], SPLIT[1]); KeptAppend([], SPLIT[0]);
    KeptAppend(SPACED[..3], SPACED[3]); KeptAppend(SPACED[..2], SPACED[2]); KeptAppend(SPACED[..1], SPACED[1]);
    assert SPLIT == SPLIT[..3] + [SPLIT[3]] && SPLIT[..3] == SPLIT[..2] + [SPLIT[2]] &&
           SPLIT[..2] == SPLIT[..1] + [SPLIT[1]] && SPLIT[..1] == [] + [SPLIT[0]];
    assert SPACED == SPACED[..3] + [SPACED[3]] && SPACED[..3] == SPACED[..2] + [SPACED[2]] &&
           SPACED[..2] == SPACED[..1] + [SPACED[1]];
    assert SPACED[..1] == SPLIT[..1];
  }

  lemma NormalizedByte()
    ensures Normalize("a") == "a"
  {
    hide Lex;
    LexByte('a', "");
    EmptyLexes();
    assert "a" == ['a'] + "" && Kept(Lex("a")) == "a";
  }

  lemma NormalizedSplit()
    ensures Normalize("a--b") == "a"
  {
    hide Lex;
    LexByte('a', "--b");
    LineRest();
    assert "a--b" == ['a'] + "--b" && Lex("a--b") == [Char('a'), Comment("--b")];
    assert Lex("a--b")[1..] == [Comment("--b")] && [Comment("--b")][1..] == [];
    assert Kept(Lex("a--b")) == "a";
  }

  lemma LineRest()
    ensures Lex("--b") == [Comment("--b")]
  {
    assert "--b"[2..] == "b" && "b"[1..] == "" && LineLen("b") == 1;
    assert FirstLen("--b") == 3 && "--b"[..3] == "--b" && "--b"[3..] == "";
    LexUnfolds("--b");
    EmptyLexes();
  }

  lemma NormalizedApart()
    ensures Normalize("a- -b") == "a--b"
  {
    hide Lex, Squeeze;
    LexByte('a', "- -b"); LexByte('-', " -b"); LexByte(' ', "-b"); LexByte('-', "b"); LexByte('b', "");
    EmptyLexes();
    assert "a- -b" == ['a'] + "- -b" && "- -b" == ['-'] + " -b" && " -b" == [' '] + "-b" && "-b" == ['-'] + "b" &&
           "b" == ['b'] + "";
    var ts := [Char('a'), Char('-'), Char(' '), Char('-'), Char('b')];
    assert Lex("a- -b") == ts;
    NoneIsComment(ts);
    SqueezeKept("a- -b");
    SqueezedApart();
  }

  lemma NoneIsComment(ts: seq<Token>)
    requires forall k | 0 <= k < |ts| :: ts[k].Char?
    ensures NoComment(ts)
  {
  }

  lemma SqueezedApart()
    ensures Squeeze("a- -b") == "a--b"
  {
    assert "a- -b"[1..] == "- -b" && "- -b"[1..] == " -b" && " -b"[1..] == "-b" && "-b"[1..] == "b" && "b"[1..] == "";
    assert Squeeze("-b") == "-b" by { assert Squeeze("b") == "b"; }
    assert Squeeze("- -b") == "--b";
  }
}
