// The byte loops of the scanner, proved to compute the token-level scan.
module SqlScannerLoops {
  import opened Policy
  import opened SqlLexer
  import opened SqlScanner
  import SqlNormalForm

  datatype Context = Code | InLine | InBlock | InQuote(closer: char)

  /** What is left from position i on; a loop may step past the end. */
  function Rest(s: string, i: nat): string { if i <= |s| then s[i..] else "" }

  /** The byte before i is no identifier byte. */
  predicate Apart(s: string, i: nat) { i == 0 || i > |s| || !Ident(s[i - 1]) }

  /** The rest of the token the context stands in. */
  function Len(ctx: Context, r: string): (n: nat)
    ensures n <= |r|
  {
    match ctx
    case Code => 0
    case InLine => LineLen(r)
    case InBlock => BlockLen(r)
    case InQuote(closer) => QuoteLen(r, closer, closer != ']')
  }

  /** The expressions the scan yields from position i in context ctx. */
  function Final(s: string, i: nat, ctx: Context, st: Capture): seq<string> {
    var r := Rest(s, i);
    var n := Len(ctx, r);
    Scan(Lex(Rest(s, i + n)), Apart(s, i + n), if ctx.InQuote? then Append(st, r[..n]) else st)
  }

  lemma RestNext(s: string, i: nat, n: nat)
    requires i + n <= |s|
    ensures |Rest(s, i)| == |s| - i
    ensures Rest(s, i)[n..] == Rest(s, i + n) && Rest(s, i)[..n] == s[i..i + n]
  {
  }

  lemma RestFirst(s: string, i: nat)
    requires i < |s|
    ensures Rest(s, i) == s[i..] && Rest(s, i) != "" && |Rest(s, i)| == |s| - i && Rest(s, i)[0] == s[i]
    ensures Rest(s, i)[1..] == Rest(s, i + 1)
    ensures i + 1 < |s| ==> Rest(s, i)[1] == s[i + 1] && Rest(s, i)[2..] == Rest(s, i + 2)
  {
    RestNext(s, i, 1);
    if i + 1 < |s| { RestNext(s, i, 2); }
  }

  /** The first token at position i and the tokens after it. */
  lemma LexAt(s: string, i: nat)
    requires i < |s|
    ensures var r := Rest(s, i);
            r != "" && Lex(r) == [First(r)] + Lex(Rest(s, i + FirstLen(r))) && Lex(r) != [] && Lex(r)[0] == First(r) &&
            Lex(r)[1..] == Lex(Rest(s, i + FirstLen(r)))
  {
    hide First, FirstLen, Rest;
    RestFirst(s, i);
    var r := Rest(s, i);
    RestNext(s, i, FirstLen(r));
    var tail := Lex(Rest(s, i + FirstLen(r)));
    assert ([First(r)] + tail)[1..] == tail;
  }

  lemma Finished(s: string, i: nat, ctx: Context, st: Capture)
    requires i >= |s|
    ensures Final(s, i, ctx, st) == st.exprs
  {
    var r := Rest(s, i);
    assert r == "";
    assert Rest(s, i + Len(ctx, r)) == "";
  }

  lemma LineChar(s: string, i: nat, st: Capture)
    requires i < |s|
    ensures Final(s, i, InLine, st) == Final(s, i + 1, if s[i] == '\n' then Code else InLine, st)
  {
    hide Lex, Scan;
    RestNext(s, i, 1);
  }

  lemma BlockChar(s: string, i: nat, st: Capture)
    requires i < |s|
    ensures Final(s, i, InBlock, st) ==
            if s[i] == '*' && i + 1 < |s| && s[i + 1] == '/' then Final(s, i + 2, Code, st)
                else Final(s, i + 1, InBlock, st)
  {
    hide Lex, Scan;
    RestNext(s, i, 1);
  }

  lemma AppendTwice(st: Capture, a: string, b: string)
    ensures Append(Append(st, a), b) == Append(st, a + b)
  {
    if st.buf.Some? { assert st.buf.value + a + b == st.buf.value + (a + b); }
  }

  /** One byte of a quoted text. */
  lemma QuoteStep(r: string, closer: char, doubling: bool)
    requires r != ""
    ensures var n := QuoteLen(r, closer, doubling);
            if r[0] != closer
            then n == 1 + QuoteLen(r[1..], closer, doubling) && r[..n] == [r[0]] + r[1..][..n - 1]
            else if doubling && |r| > 1 && r[1] == closer
            then n == 2 + QuoteLen(r[2..], closer, doubling) && r[..n] == [r[0]] + [r[0]] + r[2..][..n - 2]
            else n == 1 && r[..n] == [r[0]]
  {
    var n := QuoteLen(r, closer, doubling);
    if r[0] != closer {
      assert r[..n] == [r[0]] + r[1..n] && r[1..n] == r[1..][..n - 1];
    } else if doubling && |r| > 1 && r[1] == closer {
      assert r[..n] == [r[0]] + [r[1]] + r[2..n] && r[2..n] == r[2..][..n - 2];
    }
  }

  lemma QuoteChar(s: string, i: nat, closer: char, st: Capture)
    requires i < |s|
    ensures Final(s, i, InQuote(closer), st) ==
            if s[i] != closer then Final(s, i + 1, InQuote(closer), Append(st, [s[i]]))
            else if closer != ']' && i + 1 < |s| && s[i + 1] == closer
            then Final(s, i + 2, InQuote(closer), Append(Append(st, [s[i]]), [s[i]]))
            else Final(s, i + 1, Code, Append(st, [s[i]]))
  {
    hide Lex, Scan, Append, Rest, QuoteLen, Apart;
    var r := Rest(s, i);
    RestFirst(s, i);
    QuoteStep(r, closer, closer != ']');
    var n := QuoteLen(r, closer, closer != ']');
    if s[i] != closer {
      AppendTwice(st, [s[i]], r[1..][..n - 1]);
    } else if closer != ']' && i + 1 < |s| && s[i + 1] == closer {
      AppendTwice(st, [s[i]], [s[i]]);
      AppendTwice(st, [s[i]] + [s[i]], r[2..][..n - 2]);
    }
  }

  lemma {:induction false} LineEndsApart(r: string)
    ensures LineLen(r) == |r| || (LineLen(r) > 0 && r[LineLen(r) - 1] == '\n')
  {
    if r != "" && r[0] != '\n' { LineEndsApart(r[1..]); }
  }

  lemma {:induction false} BlockEndsApart(r: string)
    ensures BlockLen(r) == |r| || (BlockLen(r) > 0 && r[BlockLen(r) - 1] == '/')
  {
    if |r| >= 2 && !(r[0] == '*' && r[1] == '/') { BlockEndsApart(r[1..]); }
  }

  lemma {:induction false} QuoteEndsApart(r: string, closer: char, doubling: bool)
    ensures var n := QuoteLen(r, closer, doubling); n == |r| || (n > 0 && r[n - 1] == closer)
    decreases |r|
  {
    if r != "" {
      if r[0] != closer { QuoteEndsApart(r[1..], closer, doubling); }
      else if doubling && |r| > 1 && r[1] == closer { QuoteEndsApart(r[2..], closer, doubling); }
    }
  }

  /** After a comment or a quoted text comes a byte that continues no identifier, or nothing. */
  lemma TokenEndsApart(s: string, i: nat)
    requires i < |s| && !First(Rest(s, i)).Char?
    ensures var p := i + FirstLen(Rest(s, i)); p <= |s| && (p < |s| ==> Apart(s, p))
  {
    hide LineLen, BlockLen, QuoteLen, Rest;
    RestFirst(s, i);
    var r := Rest(s, i);
    var n := FirstLen(r);
    if LineStart(r) {
      LineEndsApart(r[2..]);
      if i + n < |s| { assert s[i + n - 1] == r[n - 1] == r[2..][n - 3]; }
    } else if BlockStart(r) {
      BlockEndsApart(r[2..]);
      if i + n < |s| { assert s[i + n - 1] == r[n - 1] == r[2..][n - 3]; }
    } else {
      ClosersApart(r[0]);
      QuoteEndsApart(r[1..], Closer(r[0]), r[0] != '[');
      if i + n < |s| { assert s[i + n - 1] == r[n - 1] == r[1..][n - 2]; }
    }
  }

  /** Scanning past one comment or quoted text. */
  lemma ScanPastToken(s: string, i: nat, apart: bool, st: Capture)
    requires i < |s| && !First(Rest(s, i)).Char?
    ensures var t, p := First(Rest(s, i)), i + FirstLen(Rest(s, i));
            Scan(Lex(Rest(s, i)), apart, st) == Scan(Lex(Rest(s, p)), Apart(s, p),
                if t.Quoted? then Append(st, t.text) else st)
  {
    hide Lex, Rest, First, FirstLen, Apart, Keyword, Append, Captured;
    LexAt(s, i);
    TokenEndsApart(s, i);
    var p := i + FirstLen(Rest(s, i));
    if p == |s| { EmptyLex(s, p); }
  }

  lemma EmptyLex(s: string, i: nat)
    requires i >= |s|
    ensures Lex(Rest(s, i)) == []
  {
  }

  lemma CommentStarts(s: string, i: nat, st: Capture)
    requires i < |s| && (LineStart(s[i..]) || BlockStart(s[i..]))
    ensures Final(s, i, Code, st) == Final(s, i + 2, if LineStart(s[i..]) then InLine else InBlock, st)
  {
    hide LineLen, BlockLen, QuoteLen, Lex, Scan, Rest, Apart;
    RestFirst(s, i);
    ScanPastToken(s, i, Apart(s, i), st);
  }

  lemma QuoteStarts(s: string, i: nat, st: Capture)
    requires i < |s| && Opener(s[i])
    ensures Final(s, i, Code, st) == Final(s, i + 1, InQuote(Closer(s[i])), Append(st, [s[i]]))
  {
    hide QuoteLen, LineLen, BlockLen, Append, Lex, Scan, Rest, Apart;
    RestFirst(s, i);
    ClosersApart(s[i]);
    ScanPastToken(s, i, Apart(s, i), st);
    var r := Rest(s, i);
    var n := FirstLen(r);
    OpenerFirst(r);
    AppendTwice(st, [s[i]], r[1..][..n - 1]);
  }

  lemma OpenerFirst(r: string)
    requires r != "" && Opener(r[0])
    ensures First(r) == Quoted(r[..FirstLen(r)]) && r[..FirstLen(r)] == [r[0]] + r[1..][..FirstLen(r) - 1]
    ensures FirstLen(r) == 1 + QuoteLen(r[1..], Closer(r[0]), r[0] != '[')
  {
    hide QuoteLen, LineLen, BlockLen;
    var n := FirstLen(r);
    assert r[..n] == [r[0]] + r[1..n] && r[1..n] == r[1..][..n - 1];
  }

  lemma ClosersApart(c: char)
    requires Opener(c)
    ensures !Ident(Closer(c)) && (Closer(c) != ']' <==> c != '[')
  {
  }

  /** No token longer than one byte starts at position i. */
  predicate PlainAt(s: string, i: nat)
    requires i < |s|
  {
    !LineStart(s[i..]) && !BlockStart(s[i..]) && !Opener(s[i])
  }

  lemma PlainToken(s: string, i: nat)
    requires i < |s| && PlainAt(s, i)
    ensures Lex(Rest(s, i)) == [Char(s[i])] + Lex(Rest(s, i + 1))
  {
    RestNext(s, i, 1);
  }

  lemma CapturedChar(s: string, i: nat, st: Capture)
    requires i < |s| && PlainAt(s, i) && st.buf.Some?
    ensures Final(s, i, Code, st) == Final(s, i + 1, Code, Captured(st, s[i]))
  {
    hide Lex;
    PlainToken(s, i);
    assert Lex(Rest(s, i))[1..] == Lex(Rest(s, i + 1));
  }

  /** The keyword test of the source, on bytes. */
  predicate KeywordAt(s: string, i: nat) {
    && i + 5 <= |s|
    && Fold(s[i]) == 'c' && Fold(s[i + 1]) == 'h' && Fold(s[i + 2]) == 'e' && Fold(s[i + 3]) == 'c' &&
       Fold(s[i + 4]) == 'k'
    && (i + 5 == |s| || !Ident(s[i + 5]))
  }

  lemma LetterIsPlain(s: string, i: nat)
    requires i < |s| && 'a' <= Fold(s[i]) <= 'z'
    ensures PlainAt(s, i)
  {
  }

  lemma FirstTokenChar(s: string, i: nat)
    requires i < |s|
    ensures Lex(Rest(s, i)) != []
    ensures Lex(Rest(s, i))[0].Char? ==> PlainAt(s, i) && Lex(Rest(s, i)) == [Char(s[i])] + Lex(Rest(s, i + 1))
    ensures !Lex(Rest(s, i))[0].Char? ==> !Ident(s[i])
  {
    hide LineLen, BlockLen, QuoteLen;
    if PlainAt(s, i) { PlainToken(s, i); }
  }

  /** The first k tokens at i are the letters of the keyword. */
  ghost predicate Letters(s: string, i: nat, k: nat) {
    i + k <= |s| && k <= 5 && forall j | 0 <= j < k :: Fold(s[i + j]) == "check"[j]
  }

  lemma {:induction false} LettersAreTokens(s: string, i: nat, k: nat)
    requires Letters(s, i, k)
    ensures |Lex(Rest(s, i))| >= k && Lex(Rest(s, i))[k..] == Lex(Rest(s, i + k))
    ensures forall j | 0 <= j < k :: Lex(Rest(s, i))[j] == Char(s[i + j])
  {
    hide Lex, Fold;
    if k > 0 {
      LettersAreTokens(s, i, k - 1);
      assert Fold(s[i + (k - 1)]) == "check"[k - 1];
      LetterIsPlain(s, i + k - 1);
      PlainToken(s, i + k - 1);
      var ts := Lex(Rest(s, i));
      assert ts[k - 1..][1..] == ts[k..] && ts[k - 1..][0] == ts[k - 1];
    }
  }

  lemma {:induction false} TokensAreLetters(s: string, i: nat, k: nat)
    requires i <= |s| && k <= 5 && |Lex(Rest(s, i))| >= k
    requires forall j | 0 <= j < k :: Lex(Rest(s, i))[j].Char? && Fold(Lex(Rest(s, i))[j].c) == "check"[j]
    ensures Letters(s, i, k)
  {
    hide Lex, Fold, PlainAt, Rest;
    if k > 0 {
      TokensAreLetters(s, i, k - 1);
      LettersAreTokens(s, i, k - 1);
      var ts := Lex(Rest(s, i));
      assert ts[k - 1..][0] == ts[k - 1];
      if i + k - 1 == |s| { EmptyLex(s, i + k - 1); } else { FirstTokenChar(s, i + k - 1); }
    }
  }

  lemma KeywordIff(s: string, i: nat)
    requires i < |s|
    ensures Keyword(Lex(Rest(s, i))) <==> KeywordAt(s, i)
    ensures KeywordAt(s, i) ==> |Lex(Rest(s, i))| >= 5 && Lex(Rest(s, i))[5..] == Lex(Rest(s, i + 5))
  {
    hide Lex, Fold;
    var ts := Lex(Rest(s, i));
    if Keyword(ts) { TokensAreLetters(s, i, 5); }
    if Letters(s, i, 5) {
      LettersAreTokens(s, i, 5);
      assert Fold(s[i + 0]) == "check"[0] && Fold(s[i + 1]) == "check"[1] && Fold(s[i + 2]) == "check"[2];
      assert Fold(s[i + 3]) == "check"[3] && Fold(s[i + 4]) == "check"[4];
      if i + 5 == |s| { EmptyLex(s, i + 5); } else {
        FirstTokenChar(s, i + 5);
        assert ts[5..][0] == ts[5];
      }
    }
    if KeywordAt(s, i) { assert Letters(s, i, 5); }
  }

  // ----------------------------------------------------- the skip helper

  /** What skipping does with the token at position i. */
  lemma SkipStep(s: string, i: nat)
    requires i < |s|
    ensures var r := s[i..];
            Skip(Lex(Rest(s, i))) ==
            if Blank(s[i]) then Skip(Lex(Rest(s, i + 1)))
            else if LineStart(r) then Skip(Lex(Rest(s, i + LineLen(Rest(s, i)))))
            else if BlockStart(r) then Skip(Lex(Rest(s, i + 2 + BlockLen(Rest(s, i + 2)))))
            else Lex(Rest(s, i))
  {
    hide LineLen, BlockLen, QuoteLen, Lex, Rest;
    RestFirst(s, i);
    LexAt(s, i);
    if LineStart(s[i..]) { LineOpener(Rest(s, i)); }
  }

  lemma LineOpener(r: string)
    requires LineStart(r)
    ensures LineLen(r) == 2 + LineLen(r[2..])
  {
    assert r[1..][1..] == r[2..];
  }

  lemma LineScan(s: string, i: nat)
    requires i < |s| && s[i] != '\n'
    ensures i + LineLen(Rest(s, i)) == i + 1 + LineLen(Rest(s, i + 1))
  {
    RestNext(s, i, 1);
  }

  /** A line comment's scan stops at its newline, which is skipped as a blank. */
  lemma LineScanned(s: string, i: nat)
    requires i <= |s| && (i == |s| || s[i] == '\n')
    ensures Skip(Lex(Rest(s, i))) == Skip(Lex(Rest(s, i + LineLen(Rest(s, i)))))
    ensures i + LineLen(Rest(s, i)) == if i == |s| then i else i + 1
  {
    hide Lex, Skip;
    if i < |s| { SkipStep(s, i); }
  }

  lemma BlockScan(s: string, i: nat)
    requires i <= |s|
    ensures i + 1 < |s| && !(s[i] == '*' && s[i + 1] == '/') ==>
            i + BlockLen(Rest(s, i)) == i + 1 + BlockLen(Rest(s, i + 1))
    ensures i + 1 < |s| && s[i] == '*' && s[i + 1] == '/' ==> BlockLen(Rest(s, i)) == 2
    ensures i + 1 >= |s| ==> i + BlockLen(Rest(s, i)) == |s|
  {
    if i < |s| { RestNext(s, i, 1); }
  }

  lemma SkipNothing()
    ensures Skip([]) == []
  {
  }

  /** skipSQLiteSpaceAndComments. */
  method SkipBlanks(s: string, start: nat) returns (i: nat)
    requires start <= |s|
    ensures start <= i <= |s| && Lex(Rest(s, i)) == Skip(Lex(Rest(s, start)))
  {
    hide Lex, Skip, LineLen, BlockLen, Rest;
    i := start;
    while i < |s|
      invariant start <= i <= |s| && Skip(Lex(Rest(s, i))) == Skip(Lex(Rest(s, start)))
    {
      var c := s[i];
      SkipStep(s, i);
      if Blank(c) {
        i := i + 1;
      } else if c == '-' && i + 1 < |s| && s[i + 1] == '-' {
        ghost var from := i;
        while i < |s| && s[i] != '\n'
          invariant from <= i <= |s| && i + LineLen(Rest(s, i)) == from + LineLen(Rest(s, from))
        {
          LineScan(s, i);
          i := i + 1;
        }
        LineScanned(s, i);
      } else if c == '/' && i + 1 < |s| && s[i + 1] == '*' {
        i := i + 2;
        ghost var from := i;
        while i + 1 < |s| && !(s[i] == '*' && s[i + 1] == '/')
          invariant from <= i <= |s| && i + BlockLen(Rest(s, i)) == from + BlockLen(Rest(s, from))
        {
          BlockScan(s, i);
          i := i + 1;
        }
        BlockScan(s, i);
        if i + 1 < |s| {
          i := i + 2;
        } else {
          EmptyLex(s, |s|);
          SkipNothing();
          return |s|;
        }
      } else {
        return i;
      }
    }
    EmptyLex(s, i);
    SkipNothing();
  }

  // ------------------------------------------------------- stripping

  /** The kept text from position i in context ctx. */
  function KeptFrom(s: string, i: nat, ctx: Context): string {
    var r := Rest(s, i);
    var n := Len(ctx, r);
    if ctx.InQuote? then r[..n] + Kept(Lex(Rest(s, i + n))) else Kept(Lex(Rest(s, i + n)))
  }

  lemma KeptInQuote(s: string, i: nat, closer: char)
    ensures var r := Rest(s, i);
            var n := QuoteLen(r, closer, closer != ']');
            KeptFrom(s, i, InQuote(closer)) == r[..n] + Kept(Lex(Rest(s, i + n)))
  {
    hide Lex, Kept, Rest, QuoteLen;
  }

  lemma KeptQuoteChar(s: string, i: nat, closer: char)
    requires i < |s|
    ensures KeptFrom(s, i, InQuote(closer)) ==
            if s[i] != closer then [s[i]] + KeptFrom(s, i + 1, InQuote(closer))
            else if closer != ']' && i + 1 < |s| &&
                s[i + 1] == closer then [s[i]] + [s[i]] + KeptFrom(s, i + 2, InQuote(closer))
            else [s[i]] + KeptFrom(s, i + 1, Code)
  {
    hide Lex, Kept, Rest, QuoteLen, KeptFrom;
    RestFirst(s, i);
    var r := Rest(s, i);
    QuoteStep(r, closer, closer != ']');
    KeptInQuote(s, i, closer);
    var n := QuoteLen(r, closer, closer != ']');
    var after := Kept(Lex(Rest(s, i + n)));
    if s[i] != closer {
      KeptInQuote(s, i + 1, closer);
      Group([s[i]], r[1..][..n - 1], after);
    } else if closer != ']' && i + 1 < |s| && s[i + 1] == closer {
      KeptInQuote(s, i + 2, closer);
      Group([s[i]] + [s[i]], r[2..][..n - 2], after);
    } else {
      KeptInCode(s, i + 1);
    }
  }

  lemma KeptInCode(s: string, i: nat)
    ensures KeptFrom(s, i, Code) == Kept(Lex(Rest(s, i)))
  {
    hide Lex, Kept, Rest;
  }

  lemma Group(a: string, b: string, c: string)
    ensures a + b + c == a + (b + c)
  {
  }

  lemma KeptCode(s: string, i: nat)
    requires i < |s|
    ensures var r := s[i..];
            KeptFrom(s, i, Code) ==
            if LineStart(r) then KeptFrom(s, i + LineLen(Rest(s, i)), Code)
            else if BlockStart(r) then KeptFrom(s, i + 2 + BlockLen(Rest(s, i + 2)), Code)
            else if Opener(s[i]) then [s[i]] + KeptFrom(s, i + 1, InQuote(Closer(s[i])))
            else [s[i]] + KeptFrom(s, i + 1, Code)
  {
    hide LineLen, BlockLen, QuoteLen, Lex, Rest;
    RestFirst(s, i);
    LexAt(s, i);
    var r := Rest(s, i);
    if LineStart(r) {
      LineOpener(r);
    } else if !BlockStart(r) && Opener(s[i]) {
      ClosersApart(s[i]);
      OpenerFirst(r);
      Group([s[i]], r[1..][..FirstLen(r) - 1], Kept(Lex(Rest(s, i + FirstLen(r)))));
    }
  }

  lemma KeptNothing(s: string, i: nat, ctx: Context)
    requires i >= |s|
    ensures KeptFrom(s, i, ctx) == ""
  {
    EmptyLex(s, i + Len(ctx, Rest(s, i)));
  }

  /** stripSQLiteComments. The loop over a line comment stops at the newline, and the
      step of the outer loop then passes it: the newline is dropped too. */
  method StripComments(s: string) returns (b: string)
    ensures b == Strip(s)
  {
    hide Lex, Kept, LineLen, BlockLen, QuoteLen, KeptFrom, Rest, Closer;
    b := "";
    var state := Code;
    var i := 0;
    StripStarts(s);
    while i < |s|
      invariant state.Code? || state.InQuote?
      invariant b + KeptFrom(s, i, state) == Strip(s)
    {
      var c := s[i];
      if state.InQuote? {
        KeptQuoteChar(s, i, state.closer);
        b := b + [c];
        if c == state.closer {
          if state.closer != ']' && i + 1 < |s| && s[i + 1] == c {
            b := b + [c];
            i := i + 1;
          } else {
            state := Code;
          }
        }
      } else {
        KeptCode(s, i);
        if c == '\'' || c == '"' || c == '`' || c == '[' {
          state := InQuote(Closer(c));
          b := b + [c];
        } else if c == '-' && i + 1 < |s| && s[i + 1] == '-' {
          ghost var from := i;
          while i < |s| && s[i] != '\n'
            invariant from <= i <= |s| && i + LineLen(Rest(s, i)) == from + LineLen(Rest(s, from))
          {
            LineScan(s, i);
            i := i + 1;
          }
          LineScanned(s, i);
          if i == |s| { KeptNothing(s, i, Code); KeptNothing(s, i + 1, Code); }
        } else if c == '/' && i + 1 < |s| && s[i + 1] == '*' {
          i := i + 2;
          ghost var from := i;
          while i + 1 < |s| && !(s[i] == '*' && s[i + 1] == '/')
            invariant from <= i <= |s| && i + BlockLen(Rest(s, i)) == from + BlockLen(Rest(s, from))
          {
            BlockScan(s, i);
            i := i + 1;
          }
          BlockScan(s, i);
          if i + 1 >= |s| { KeptNothing(s, |s|, Code); KeptNothing(s, i + 2, Code); }
          i := i + 1;
        } else {
          b := b + [c];
        }
      }
      i := i + 1;
    }
    KeptNothing(s, i, state);
  }

  lemma StripStarts(s: string)
    ensures "" + KeptFrom(s, 0, Code) == Strip(s)
  {
    assert s[0..] == s;
  }

  /** normalizeSchemaSQL. */
  method NormalizeSchema(ddl: string) returns (r: string)
    ensures r == Normalize(ddl)
    ensures exists at: seq<nat> :: SqlNormalForm.Squeezed(Strip(ddl), r, at)
  {
    ghost var at := SqlNormalForm.NormalFormIs(ddl);
    var text := StripComments(ddl);
    r := "";
    for k := 0 to |text|
      invariant r + Squeeze(text[k..]) == Squeeze(text)
    {
      if !Blank(text[k]) { r := r + [Fold(text[k])]; }
    }
  }

  // ------------------------------------------------- the CHECK scanner

  lemma KeywordChar(s: string, i: nat, j: nat, st: Capture)
    requires i < |s| && PlainAt(s, i) && st.buf.None? && Apart(s, i) && KeywordAt(s, i)
    requires j <= |s| && Lex(Rest(s, j)) == Skip(Lex(Rest(s, i + 5)))
    ensures Final(s, i, Code, st) ==
            if j < |s| && s[j] == '(' then Final(s, j + 1, Code, Capture(st.exprs, Some(""), 1))
                else Final(s, i + 1, Code, st)
  {
    hide Lex, Skip, Keyword, Rest, PlainAt, KeywordAt;
    KeywordIff(s, i);
    var ts := Lex(Rest(s, i));
    PlainToken(s, i);
    KeywordLetter(s, i);
    assert ts[1..] == Lex(Rest(s, i + 1));
    if j < |s| {
      FirstTokenChar(s, j);
      if s[j] == '(' {
        PlainParen(s, j);
        assert Lex(Rest(s, j))[1..] == Lex(Rest(s, j + 1));
      }
    } else {
      EmptyLex(s, j);
    }
  }

  lemma KeywordLetter(s: string, i: nat)
    requires KeywordAt(s, i)
    ensures i < |s| && Ident(s[i])
  {
  }

  lemma PlainParen(s: string, j: nat)
    requires j < |s| && s[j] == '('
    ensures PlainAt(s, j) && Lex(Rest(s, j)) == [Char('(')] + Lex(Rest(s, j + 1))
  {
    PlainToken(s, j);
  }

  lemma OtherChar(s: string, i: nat, st: Capture)
    requires i < |s| && PlainAt(s, i) && st.buf.None? && !(Apart(s, i) && KeywordAt(s, i))
    ensures Final(s, i, Code, st) == Final(s, i + 1, Code, st)
  {
    hide Lex, Skip, Keyword;
    KeywordIff(s, i);
    PlainToken(s, i);
    assert Lex(Rest(s, i))[1..] == Lex(Rest(s, i + 1));
  }

  /** sqliteCheckExpressions. */
  method CheckExpressions(s: string) returns (exprs: seq<string>)
    ensures exprs == Checks(s)
  {
    hide Lex, Scan, Skip, Keyword, LineLen, BlockLen, QuoteLen, Final;
    exprs := [];
    var buf: Option<string> := None;
    var depth := 0;
    var ctx := Code;
    var i := 0;
    ScanStarts(s);
    while i < |s|
      invariant Final(s, i, ctx, Capture(exprs, buf, depth)) == Checks(s)
      decreases |s| - i
    {
      var c := s[i];
      ghost var st := Capture(exprs, buf, depth);
      match ctx {
      case InQuote(closer) =>
        QuoteChar(s, i, closer, st);
        if buf.Some? { buf := Some(buf.value + [c]); }
        if c == closer {
          if closer != ']' && i + 1 < |s| && s[i + 1] == closer {
            if buf.Some? { buf := Some(buf.value + [c]); }
            i := i + 1;
          } else {
            ctx := Code;
          }
        }
      case InLine =>
        LineChar(s, i, st);
        if c == '\n' { ctx := Code; }
      case InBlock =>
        BlockChar(s, i, st);
        if c == '*' && i + 1 < |s| && s[i + 1] == '/' {
          i := i + 1;
          ctx := Code;
        }
      case Code =>
        if c == '-' && i + 1 < |s| && s[i + 1] == '-' {
          CommentStarts(s, i, st);
          ctx := InLine;
          i := i + 1;
        } else if c == '/' && i + 1 < |s| && s[i + 1] == '*' {
          CommentStarts(s, i, st);
          ctx := InBlock;
          i := i + 1;
        } else if c == '\'' || c == '"' || c == '`' || c == '[' {
          QuoteStarts(s, i, st);
          if buf.Some? { buf := Some(buf.value + [c]); }
          ctx := InQuote(Closer(c));
        } else if c == '(' && buf.Some? {
          CapturedChar(s, i, st);
          assert [c] == "(";
          depth := depth + 1;
          buf := Some(buf.value + [c]);
        } else if c == ')' && buf.Some? {
          CapturedChar(s, i, st);
          assert [c] == ")";
          depth := depth - 1;
          if depth == 0 {
            var expr := NormalizeSchema(buf.value);
            exprs := exprs + [expr];
            buf := None;
          } else {
            buf := Some(buf.value + [c]);
          }
        } else if (c == 'c' || c == 'C') && buf.None? && Apart(s, i) && KeywordAt(s, i) {
          var j := SkipBlanks(s, i + 5);
          KeywordChar(s, i, j, st);
          if j < |s| && s[j] == '(' {
            buf := Some("");
            depth := 1;
            i := j;
          }
        } else {
          if buf.Some? {
            CapturedChar(s, i, st);
            buf := Some(buf.value + [c]);
          } else {
            OtherChar(s, i, st);
          }
        }
      }
      i := i + 1;
    }
    Finished(s, i, ctx, Capture(exprs, buf, depth));
  }

  lemma ScanStarts(s: string)
    ensures Final(s, 0, Code, START) == Checks(s)
  {
    assert s[0..] == s;
  }
}
