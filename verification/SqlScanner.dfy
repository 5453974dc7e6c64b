// The scanner that finds CHECK expressions in stored schema text (database.go):
// sqliteCheckExpressions, skipSQLiteSpaceAndComments, stripSQLiteComments and
// normalizeSchemaSQL. Case folding and whitespace are modelled for ASCII.
module SqlScanner {
  import opened Policy
  import opened SqlLexer

  predicate Ident(c: char) {
    'a' <= c <= 'z' || 'A' <= c <= 'Z' || '0' <= c <= '9' || c == '_' || c == '$'
  }

  predicate Blank(c: char) { c == ' ' || '\t' <= c <= '\r' }

  function Fold(c: char): char { if 'A' <= c <= 'Z' then ((c as int) + 32) as char else c }

  // -------------------------------------------------------- normalization

  /** The text without its comments, a line comment going with its newline. */
  function Kept(ts: seq<Token>): string {
    if ts == [] then "" else if ts[0].Comment? then Kept(ts[1..]) else Text(ts[0]) + Kept(ts[1..])
  }

  function Strip(s: string): string { Kept(Lex(s)) }

  function Squeeze(s: string): string {
    if s == "" then "" else if Blank(s[0]) then Squeeze(s[1..]) else [Fold(s[0])] + Squeeze(s[1..])
  }

  /** normalizeSchemaSQL: comments out, whitespace out, lower case. */
  function Normalize(s: string): string { Squeeze(Strip(s)) }

  // ------------------------------------------------- scanning over tokens

  /** Expressions found, the expression being captured if any, and its open parentheses. */
  datatype Capture = Capture(exprs: seq<string>, buf: Option<string>, depth: int)

  function Append(st: Capture, text: string): Capture {
    if st.buf.Some? then st.(buf := Some(st.buf.value + text)) else st
  }

  /** "check" in any case, not continued by an identifier byte. */
  predicate Keyword(ts: seq<Token>) {
    && |ts| >= 5
    && (forall k | 0 <= k < 5 :: ts[k].Char? && Fold(ts[k].c) == "check"[k])
    && (|ts| > 5 ==> !(ts[5].Char? && Ident(ts[5].c)))
  }

  function Skip(ts: seq<Token>): (rest: seq<Token>)
    ensures |rest| <= |ts|
  {
    if ts != [] && (ts[0].Comment? || (ts[0].Char? && Blank(ts[0].c))) then Skip(ts[1..]) else ts
  }

  /** A code byte while an expression is captured. */
  function Captured(st: Capture, c: char): Capture
    requires st.buf.Some?
  {
    if c == '(' then Append(st, "(").(depth := st.depth + 1)
    else if c == ')' && st.depth == 1 then Capture(st.exprs + [Normalize(st.buf.value)], None, 0)
    else if c == ')' then Append(st, ")").(depth := st.depth - 1)
    else Append(st, [c])
  }

  /** The expressions the scan of the tokens ts yields; `apart`: the byte before is no identifier byte. */
  function Scan(ts: seq<Token>, apart: bool, st: Capture): seq<string>
    decreases |ts|
  {
    if ts == [] then st.exprs
    else if ts[0].Comment? then Scan(ts[1..], true, st)
    else if ts[0].Quoted? then Scan(ts[1..], true, Append(st, ts[0].text))
    else if st.buf.Some? then Scan(ts[1..], !Ident(ts[0].c), Captured(st, ts[0].c))
    else if apart && Keyword(ts) && Opens(ts) then Scan(Skip(ts[5..])[1..], true, Capture(st.exprs, Some(""), 1))
    else Scan(ts[1..], !Ident(ts[0].c), st)
  }

  /** The keyword is followed, after blanks and comments, by a parenthesis. */
  predicate Opens(ts: seq<Token>)
    requires Keyword(ts)
  {
    Skip(ts[5..]) != [] && Skip(ts[5..])[0] == Char('(')
  }

  const START: Capture := Capture([], None, 0)

  function Checks(s: string): seq<string> { Scan(Lex(s), true, START) }

  // ----------------------------------------------- only code is observed

  /** For every token, whether it is read inside a CHECK expression. */
  function Inside(ts: seq<Token>, apart: bool, st: Capture): (flags: seq<bool>)
    ensures |flags| == |ts|
    decreases |ts|
  {
    if ts == [] then []
    else if ts[0].Comment? then [st.buf.Some?] + Inside(ts[1..], true, st)
    else if ts[0].Quoted? then [st.buf.Some?] + Inside(ts[1..], true, Append(st, ts[0].text))
    else if st.buf.Some? then [true] + Inside(ts[1..], !Ident(ts[0].c), Captured(st, ts[0].c))
    else if apart && Keyword(ts) && Opens(ts) then
      var rest := Skip(ts[5..])[1..];
      seq(|ts| - |rest|, i => false) + Inside(rest, true, Capture(st.exprs, Some(""), 1))
    else [false] + Inside(ts[1..], !Ident(ts[0].c), st)
  }

  /** Equal tokens, two comments, or two quoted texts that stand outside every CHECK. */
  predicate Interchangeable(a: Token, b: Token, inside: bool) {
    a == b || (a.Comment? && b.Comment?) || (!inside && a.Quoted? && b.Quoted?)
  }

  predicate SameCode(ts: seq<Token>, us: seq<Token>, flags: seq<bool>) {
    |ts| == |us| == |flags| && forall k | 0 <= k < |ts| :: Interchangeable(ts[k], us[k], flags[k])
  }

  lemma SameCodeKeyword(ts: seq<Token>, us: seq<Token>, flags: seq<bool>)
    requires SameCode(ts, us, flags)
    ensures Keyword(ts) <==> Keyword(us)
  {
    if |ts| > 5 { assert Interchangeable(ts[5], us[5], flags[5]); }
    forall k | 0 <= k < |ts| ensures ts[k].Char? <==> us[k].Char? {
      assert Interchangeable(ts[k], us[k], flags[k]);
    }
    forall k | 0 <= k < |ts| && ts[k].Char? ensures ts[k] == us[k] {
      assert Interchangeable(ts[k], us[k], flags[k]);
    }
  }

  lemma {:induction false} SameCodeSkip(ts: seq<Token>, us: seq<Token>, flags: seq<bool>)
    requires SameCode(ts, us, flags)
    ensures |Skip(ts)| == |Skip(us)|
    ensures Skip(ts) != [] ==> (Skip(ts)[0] == Char('(') <==> Skip(us)[0] == Char('('))
    ensures ts[|ts| - |Skip(ts)|..] == Skip(ts) && us[|us| - |Skip(us)|..] == Skip(us)
    decreases |ts|
  {
    if ts != [] {
      assert Interchangeable(ts[0], us[0], flags[0]);
      if ts[0].Comment? || (ts[0].Char? && Blank(ts[0].c)) {
        SameCodeSkip(ts[1..], us[1..], flags[1..]);
      }
    }
  }

  lemma SameCodeTail(ts: seq<Token>, us: seq<Token>, flags: seq<bool>, k: nat)
    requires SameCode(ts, us, flags) && k <= |ts|
    ensures SameCode(ts[k..], us[k..], flags[k..])
  {
    forall i | 0 <= i < |ts| - k ensures Interchangeable(ts[k..][i], us[k..][i], flags[k..][i]) {
      assert Interchangeable(ts[k + i], us[k + i], flags[k + i]);
    }
  }

  /** Two scans of interchangeable tokens yield the same expressions. */
  lemma {:induction false} ScanSeesOnlyCode(ts: seq<Token>, us: seq<Token>, apart: bool, st: Capture)
    requires SameCode(ts, us, Inside(ts, apart, st))
    ensures Scan(ts, apart, st) == Scan(us, apart, st)
    decreases |ts|
  {
    hide SameCode, Keyword, Captured, Append;
    var flags := Inside(ts, apart, st);
    SameLength(ts, us, flags);
    if ts == [] { return; }
    FirstInterchangeable(ts, us, flags);
    SameCodeTail(ts, us, flags, 1);
    if ts[0].Comment? {
      assert flags[1..] == Inside(ts[1..], true, st);
      ScanSeesOnlyCode(ts[1..], us[1..], true, st);
    } else if ts[0].Quoted? {
      assert flags[1..] == Inside(ts[1..], true, Append(st, ts[0].text));
      QuotedSame(st, ts[0], us[0]);
      ScanSeesOnlyCode(ts[1..], us[1..], true, Append(st, ts[0].text));
    } else if st.buf.Some? {
      assert flags[1..] == Inside(ts[1..], !Ident(ts[0].c), Captured(st, ts[0].c));
      ScanSeesOnlyCode(ts[1..], us[1..], !Ident(ts[0].c), Captured(st, ts[0].c));
    } else {
      KeywordSame(ts, us, flags);
      if apart && Keyword(ts) && Opens(ts) {
        var rest := Skip(ts[5..])[1..];
        var n := |ts| - |rest|;
        assert flags[n..] == Inside(rest, true, Capture(st.exprs, Some(""), 1));
        SameCodeTail(ts, us, flags, n);
        ScanSeesOnlyCode(rest, Skip(us[5..])[1..], true, Capture(st.exprs, Some(""), 1));
      } else {
        assert flags[1..] == Inside(ts[1..], !Ident(ts[0].c), st);
        ScanSeesOnlyCode(ts[1..], us[1..], !Ident(ts[0].c), st);
      }
    }
  }

  lemma SameLength(ts: seq<Token>, us: seq<Token>, flags: seq<bool>)
    requires SameCode(ts, us, flags)
    ensures |ts| == |us| == |flags|
  {
  }

  lemma FirstInterchangeable(ts: seq<Token>, us: seq<Token>, flags: seq<bool>)
    requires SameCode(ts, us, flags) && ts != []
    ensures |us| == |ts| == |flags| && Interchangeable(ts[0], us[0], flags[0])
  {
  }

  lemma QuotedSame(st: Capture, a: Token, b: Token)
    requires a.Quoted? && Interchangeable(a, b, st.buf.Some?)
    ensures b.Quoted? && Append(st, a.text) == Append(st, b.text)
  {
  }

  lemma KeywordSame(ts: seq<Token>, us: seq<Token>, flags: seq<bool>)
    requires SameCode(ts, us, flags)
    ensures Keyword(ts) <==> Keyword(us)
    ensures Keyword(ts) ==> |ts| == |us| >= 5 && (Opens(ts) <==> Opens(us)) && |Skip(ts[5..])| == |Skip(us[5..])|
    ensures Keyword(ts) && Opens(ts) ==>
              var n := |ts| - |Skip(ts[5..])| + 1;
              0 <= n <= |ts| && ts[n..] == Skip(ts[5..])[1..] && us[n..] == Skip(us[5..])[1..]
  {
    SameCodeKeyword(ts, us, flags);
    if Keyword(ts) {
      SameCodeTail(ts, us, flags, 5);
      SameCodeSkip(ts[5..], us[5..], flags[5..]);
      var m := |ts[5..]| - |Skip(ts[5..])|;
      assert ts[5..][m..] == ts[5 + m..] && us[5..][m..] == us[5 + m..];
      if Opens(ts) {
        assert ts[5 + m..][1..] == ts[5 + m + 1..] && us[5 + m..][1..] == us[5 + m + 1..];
      }
    }
  }

  /** The CHECK expressions of two texts agree when the texts differ only in
      comments and in quoted texts outside every CHECK. */
  lemma OnlyCodeIsSeen(s: string, t: string)
    requires SameCode(Lex(s), Lex(t), Inside(Lex(s), true, START))
    ensures Checks(s) == Checks(t)
  {
    ScanSeesOnlyCode(Lex(s), Lex(t), true, START);
  }

  /** Replacing the body of a comment, or of a quoted text opened outside every
      CHECK, by any body that does not end it earlier changes no expression. */
  lemma ReplacedBodyIsUnseen(s: string, k: nat, t: Token)
    requires k < |Lex(s)| && SameKind(Lex(s)[k], t) && Closed(t)
    requires k == |Lex(s)| - 1 || Closed(Lex(s)[k])
    requires t.Comment? || !Inside(Lex(s), true, START)[k]
    ensures Checks(Unlex(Lex(s)[k := t])) == Checks(s)
  {
    hide Lex, Inside, Scan, Closed;
    ReplaceBody(s, k, t);
    SameFirstByte(Lex(s)[k], t);
    var us := Lex(s)[k := t];
    var flags := Inside(Lex(s), true, START);
    forall i | 0 <= i < |us| ensures Interchangeable(Lex(s)[i], us[i], flags[i]) {}
    OnlyCodeIsSeen(s, Unlex(us));
  }

  lemma {:induction false} KeptWithoutComments(ts: seq<Token>, us: seq<Token>)
    requires |ts| == |us| && forall k | 0 <= k < |ts| :: ts[k] == us[k] || (ts[k].Comment? && us[k].Comment?)
    ensures Kept(ts) == Kept(us)
  {
    if ts != [] {
      assert ts[0] == us[0] || (ts[0].Comment? && us[0].Comment?);
      KeptWithoutComments(ts[1..], us[1..]);
    }
  }

  /** No comment reaches the normal form of a schema text. */
  lemma NormalFormSeesNoComment(s: string, k: nat, t: Token)
    requires k < |Lex(s)| && Lex(s)[k].Comment? && SameKind(Lex(s)[k], t) && Closed(t)
    requires k == |Lex(s)| - 1 || Closed(Lex(s)[k])
    ensures Normalize(Unlex(Lex(s)[k := t])) == Normalize(s)
  {
    hide Lex, Closed, Kept, Squeeze;
    ReplaceBody(s, k, t);
    KeptWithoutComments(Lex(s), Lex(s)[k := t]);
  }
}
