// The lexical structure of stored SQLite schema text (database.go): comments,
// string literals and quoted identifiers, and single code bytes.
module SqlLexer {

  datatype Token =
    | Char(c: char)
    | Comment(text: string)   // with its delimiters; a line comment with its newline
    | Quoted(text: string)    // with its delimiters and doubled closers

  /** Bytes of a line comment after "--", the newline included. */
  function LineLen(r: string): (n: nat)
    ensures n <= |r|
  {
    if r == "" then 0 else if r[0] == '\n' then 1 else 1 + LineLen(r[1..])
  }

  /** Bytes of a block comment after its opener, the closer included. */
  function BlockLen(r: string): (n: nat)
    ensures n <= |r|
  {
    if |r| < 2 then |r| else if r[0] == '*' && r[1] == '/' then 2 else 1 + BlockLen(r[1..])
  }

  /** Bytes of a quoted text after its opener; a doubled closer stands for itself. */
  function QuoteLen(r: string, closer: char, doubling: bool): (n: nat)
    ensures n <= |r|
    decreases |r|
  {
    if r == "" then 0
    else if r[0] != closer then 1 + QuoteLen(r[1..], closer, doubling)
    else if doubling && |r| > 1 && r[1] == closer then 2 + QuoteLen(r[2..], closer, doubling)
    else 1
  }

  predicate Opener(c: char) { c == '\'' || c == '"' || c == '`' || c == '[' }

  function Closer(c: char): char { if c == '[' then ']' else c }

  predicate LineStart(s: string) { |s| > 1 && s[0] == '-' && s[1] == '-' }

  predicate BlockStart(s: string) { |s| > 1 && s[0] == '/' && s[1] == '*' }

  /** Length of the first token. */
  function FirstLen(s: string): (n: nat)
    requires s != ""
    ensures 0 < n <= |s|
  {
    if LineStart(s) then 2 + LineLen(s[2..])
    else if BlockStart(s) then 2 + BlockLen(s[2..])
    else if Opener(s[0]) then 1 + QuoteLen(s[1..], Closer(s[0]), s[0] != '[')
    else 1
  }

  function First(s: string): Token
    requires s != ""
  {
    if LineStart(s) || BlockStart(s) then Comment(s[..FirstLen(s)])
    else if Opener(s[0]) then Quoted(s[..FirstLen(s)])
    else Char(s[0])
  }

  function Lex(s: string): seq<Token> {
    if s == "" then [] else [First(s)] + Lex(s[FirstLen(s)..])
  }

  function Text(t: Token): string { if t.Char? then [t.c] else t.text }

  function Unlex(ts: seq<Token>): string {
    if ts == [] then "" else Text(ts[0]) + Unlex(ts[1..])
  }

  lemma {:induction false} UnlexLex(s: string)
    ensures Unlex(Lex(s)) == s
    decreases |s|
  {
    if s != "" {
      var n := FirstLen(s);
      UnlexLex(s[n..]);
      assert Text(First(s)) == s[..n] && s == s[..n] + s[n..];
    }
  }

  /** A comment or quoted text that is closed and means the same wherever it stands. */
  ghost predicate Closed(t: Token) {
    match t
    case Char(_) => false
    case Comment(x) =>
      || (LineStart(x) && LineLen(x[2..]) == |x| - 2 && x[|x| - 1] == '\n' && |x| > 2)
      || (BlockStart(x) && BlockLen(x[2..]) == |x| - 2 && |x| >= 4 && x[|x| - 2] == '*' && x[|x| - 1] == '/')
    case Quoted(x) =>
      |x| > 1 && Opener(x[0]) && x[|x| - 1] == Closer(x[0]) && ClosesLast(x[1..], Closer(x[0]), x[0] != '[')
  }

  /** The first closer that is not doubled is the last byte. */
  ghost predicate ClosesLast(r: string, closer: char, doubling: bool)
    decreases |r|
  {
    if r == "" then false
    else if r[0] != closer then ClosesLast(r[1..], closer, doubling)
    else if doubling && |r| > 1 && r[1] == closer then ClosesLast(r[2..], closer, doubling)
    else |r| == 1
  }

  /** Same delimiters: the tokens differ in their bodies only. */
  predicate SameKind(a: Token, b: Token) {
    || (a.Comment? && b.Comment? && a.text != "" && b.text != "" && a.text[0] == b.text[0])
    || (a.Quoted? && b.Quoted? && a.text != "" && b.text != "" && a.text[0] == b.text[0])
  }

  // ------------------------------------ replacing the body of one token

  lemma {:induction false} LineLenStable(x: string, r: string)
    requires x != "" && LineLen(x) == |x| && x[|x| - 1] == '\n'
    ensures LineLen(x + r) == |x|
  {
    if x[0] != '\n' {
      assert (x + r)[1..] == x[1..] + r;
      LineLenStable(x[1..], r);
    }
  }

  lemma {:induction false} BlockLenStable(x: string, r: string)
    requires |x| >= 2 && BlockLen(x) == |x| && x[|x| - 2] == '*' && x[|x| - 1] == '/'
    ensures BlockLen(x + r) == |x|
  {
    if !(x[0] == '*' && x[1] == '/') {
      assert (x + r)[1..] == x[1..] + r;
      assert |x| > 2;
      BlockLenStable(x[1..], r);
    }
  }

  lemma {:induction false} QuoteLenStable(x: string, closer: char, doubling: bool, r: string)
    requires ClosesLast(x, closer, doubling) && (doubling && r != "" ==> r[0] != closer)
    ensures QuoteLen(x + r, closer, doubling) == |x|
    decreases |x|
  {
    var t := x + r;
    if x[0] != closer {
      assert t[1..] == x[1..] + r;
      QuoteLenStable(x[1..], closer, doubling, r);
    } else if doubling && |x| > 1 && x[1] == closer {
      assert t[2..] == x[2..] + r;
      QuoteLenStable(x[2..], closer, doubling, r);
    }
  }

  /** A closed token in front of r is the first token of the whole. */
  lemma ClosedIsFirst(t: Token, r: string)
    requires Closed(t)
    requires t.Quoted? && t.text[0] != '[' && r != "" ==> r[0] != t.text[0]
    ensures Lex(Text(t) + r) == [t] + Lex(r)
  {
    hide LineLen, BlockLen, QuoteLen, ClosesLast;
    var x := Text(t);
    var s := x + r;
    if t.Comment? && LineStart(x) {
      LineLenStable(x[2..], r);
      assert s[2..] == x[2..] + r;
    } else if t.Comment? {
      BlockLenStable(x[2..], r);
      assert s[2..] == x[2..] + r;
    } else {
      QuoteLenStable(x[1..], Closer(x[0]), x[0] != '[', r);
      assert s[1..] == x[1..] + r;
    }
    assert s[..|x|] == x && s[|x|..] == r;
  }

  lemma {:induction false} LineLenClosed(x: string, r: string)
    requires r != "" && LineLen(x + r) == |x|
    ensures x != "" && LineLen(x) == |x| && x[|x| - 1] == '\n'
  {
    var t := x + r;
    assert x == "" ==> t == r;
    if x != "" && x[0] != '\n' {
      assert t[1..] == x[1..] + r;
      LineLenClosed(x[1..], r);
    }
  }

  lemma {:induction false} BlockLenClosed(x: string, r: string)
    requires r != "" && BlockLen(x + r) == |x|
    ensures |x| >= 2 && BlockLen(x) == |x| && x[|x| - 2] == '*' && x[|x| - 1] == '/'
  {
    var t := x + r;
    assert x == "" ==> t == r;
    if x != "" && !(t[0] == '*' && t[1] == '/') {
      assert t[1..] == x[1..] + r;
      BlockLenClosed(x[1..], r);
    }
  }

  lemma {:induction false} QuoteLenClosed(x: string, closer: char, doubling: bool, r: string)
    requires r != "" && QuoteLen(x + r, closer, doubling) == |x|
    ensures ClosesLast(x, closer, doubling) && x[|x| - 1] == closer && (doubling ==> r[0] != closer)
    decreases |x|
  {
    var t := x + r;
    assert x == "" ==> t == r;
    if x != "" && x[0] != closer {
      assert t[1..] == x[1..] + r;
      QuoteLenClosed(x[1..], closer, doubling, r);
    } else if x != "" && doubling && |t| > 1 && t[1] == closer {
      if |x| > 1 {
        assert t[2..] == x[2..] + r;
        QuoteLenClosed(x[2..], closer, doubling, r);
      }
    }
  }

  /** A token followed by more text is a plain byte or closed. */
  lemma FirstIsClosed(t: Token, r: string)
    requires r != "" && Text(t) != "" && First(Text(t) + r) == t
    ensures t.Char? || Closed(t)
    ensures t.Quoted? && t.text[0] != '[' ==> r[0] != t.text[0]
  {
    hide LineLen, BlockLen, QuoteLen, ClosesLast;
    var x := Text(t);
    var s := x + r;
    assert s[..|x|] == x;
    if LineStart(s) {
      assert |x| >= 2 && s[2..] == x[2..] + r;
      LineLenClosed(x[2..], r);
    } else if BlockStart(s) {
      assert |x| >= 2 && s[2..] == x[2..] + r;
      BlockLenClosed(x[2..], r);
    } else if Opener(s[0]) {
      assert s[1..] == x[1..] + r;
      QuoteLenClosed(x[1..], Closer(x[0]), x[0] != '[', r);
    }
  }

  lemma CharIsStable(c: char, r: string, q: string)
    requires First([c] + r) == Char(c) && r != "" && q != "" && r[0] == q[0]
    ensures Lex([c] + q) == [Char(c)] + Lex(q)
  {
    hide LineLen, BlockLen, QuoteLen;
    var s, d := [c] + r, [c] + q;
    assert s[1] == r[0] == q[0] == d[1];
    assert LineStart(s) == LineStart(d) && BlockStart(s) == BlockStart(d);
    assert FirstLen(d) == 1 && d[1..] == q;
  }

  /** The first token does not depend on what follows beyond its next byte. */
  lemma FirstIsStable(t: Token, r: string, q: string)
    requires r != "" && q != "" && r[0] == q[0] && Text(t) != "" && First(Text(t) + r) == t
    ensures Lex(Text(t) + q) == [t] + Lex(q)
  {
    hide First, FirstLen, Closed, Lex;
    FirstIsClosed(t, r);
    if t.Char? {
      CharIsStable(t.c, r, q);
    } else {
      ClosedIsFirst(t, q);
    }
  }

  lemma TokensHaveText(s: string, k: nat)
    requires k < |Lex(s)|
    ensures Text(Lex(s)[k]) != ""
    decreases |s|
  {
    if k > 0 { TokensHaveText(s[FirstLen(s)..], k - 1); }
  }

  lemma UnlexStarts(ts: seq<Token>)
    requires ts != [] && Text(ts[0]) != ""
    ensures Unlex(ts) != "" && Unlex(ts)[0] == Text(ts[0])[0]
  {
  }

  /** Replacing the body of one token by another closed body of the same kind
      leaves every other token as it is. */
  lemma {:induction false} ReplaceBody(s: string, k: nat, t: Token)
    requires k < |Lex(s)| && SameKind(Lex(s)[k], t) && Closed(t)
    requires k == |Lex(s)| - 1 || Closed(Lex(s)[k])
    ensures Lex(Unlex(Lex(s)[k := t])) == Lex(s)[k := t]
    decreases |s|
  {
    hide Closed, First, FirstLen;
    var ts := Lex(s);
    var us := ts[k := t];
    var n := FirstLen(s);
    var r := s[n..];
    FirstText(s);
    UnlexLex(r);
    if k == 0 {
      assert us == [t] + Lex(r);
      assert us[1..] == Lex(r);
      if r != "" { FirstIsClosed(First(s), r); }
      SameFirstByte(ts[0], t);
      ClosedIsFirst(t, r);
    } else {
      ReplaceBody(r, k - 1, t);
      assert us[1..] == Lex(r)[k - 1 := t] && us[0] == First(s);
      var q := Unlex(us[1..]);
      TokensHaveText(r, 0);
      UnlexStarts(Lex(r));
      assert Text(t) != "" && Text(us[1]) != "";
      UnlexStarts(us[1..]);
      FirstIsStable(First(s), r, q);
    }
  }

  lemma FirstText(s: string)
    requires s != ""
    ensures Text(First(s)) == s[..FirstLen(s)] && Text(First(s)) != "" && s == Text(First(s)) + s[FirstLen(s)..]
  {
  }

  lemma SameFirstByte(a: Token, b: Token)
    requires SameKind(a, b)
    ensures a.Quoted? == b.Quoted? && !a.Char? && !b.Char? && a.text != "" && b.text != "" && a.text[0] == b.text[0]
  {
  }
}
