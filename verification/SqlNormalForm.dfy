// What the normal form of a schema text is, byte by byte (database.go:349-355), and
// that the CHECK expressions do not depend on letter case.
module SqlNormalForm {
  import opened Policy
  import opened SqlLexer
  import opened SqlScanner
  import opened SqlCapture

  /** The position k of t holds an ASCII blank. */
  predicate BlankAt(t: string, k: nat)
    requires k < |t|
  {
    t[k] == ' ' || '\t' <= t[k] <= '\r'
  }

  /** Byte d is byte c with a capital letter made small. */
  predicate Small(c: char, d: char) { if 'A' <= c <= 'Z' then d as int == c as int + 32 else d == c }

  /** `at` lists, in order, the positions of t that hold no blank, and r holds their
      bytes with capitals made small. */
  ghost predicate Squeezed(t: string, r: string, at: seq<nat>) {
    && |at| == |r|
    && (forall i, j | 0 <= i < j < |at| :: at[i] < at[j])
    && (forall i | 0 <= i < |at| :: at[i] < |t| && !BlankAt(t, at[i]) && Small(t[at[i]], r[i]))
    && (forall k: nat | k < |t| && !BlankAt(t, k) :: k in at)
  }

  lemma SqueezedBlank(t: string, c: char, r: string, at: seq<nat>)
    requires Squeezed(t, r, at) && (c == ' ' || '\t' <= c <= '\r')
    ensures Squeezed(t + [c], r, at)
  {
    hide Small;
  }

  lemma SqueezedSolid(t: string, c: char, d: char, r: string, at: seq<nat>)
    requires Squeezed(t, r, at) && !(c == ' ' || '\t' <= c <= '\r') && Small(c, d)
    ensures Squeezed(t + [c], r + [d], at + [|t|])
  {
    hide Small;
    var all := at + [|t|];
    forall k: nat | k < |t + [c]| && !BlankAt(t + [c], k) ensures k in all {
      if k < |t| { assert !BlankAt(t, k) && k in at; } else { assert all[|at|] == k; }
    }
  }

  lemma {:induction false} SqueezeIs(t: string) returns (at: seq<nat>)
    ensures Squeezed(t, Squeeze(t), at)
  {
    hide Squeeze, Squeezed, Fold;
    if t == "" {
      at := [];
      NothingSqueezed();
    } else {
      var n := |t| - 1;
      var init, c := t[..n], t[n];
      at := SqueezeIs(init);
      SqueezeConcat(init, [c]);
      SqueezeByte(c);
      assert t == init + [c];
      if c == ' ' || '\t' <= c <= '\r' {
        SqueezedBlank(init, c, Squeeze(init), at);
        assert Squeeze(init) + [] == Squeeze(init);
      } else {
        SqueezedSolid(init, c, Fold(c), Squeeze(init), at);
        at := at + [n];
      }
    }
  }

  lemma NothingSqueezed()
    ensures Squeezed("", Squeeze(""), [])
  {
  }

  lemma SqueezeByte(c: char)
    ensures Squeeze([c]) == if c == ' ' || '\t' <= c <= '\r' then "" else [Fold(c)]
    ensures Small(c, Fold(c))
  {
    assert [c][1..] == "";
  }

  /** The normal form is the text without its comments, with exactly the blanks removed,
      in order, every capital made small and every other byte as it is. */
  lemma NormalFormIs(s: string) returns (at: seq<nat>)
    ensures Squeezed(Strip(s), Normalize(s), at)
  {
    at := SqueezeIs(Strip(s));
  }

  /** So is every CHECK expression, of the code of its CHECK read as a text of its own. */
  lemma ExpressionIs(s: string, i: nat) returns (at: seq<nat>)
    requires i < |Bodies(s)|
    ensures |Checks(s)| == |Bodies(s)| && Squeezed(Strip(Kept(Bodies(s)[i])), Checks(s)[i], at)
  {
    hide Gather, Lex, Squeezed, Scan;
    ScanGathers(Lex(s), true, NOTHING);
    at := NormalFormIs(Kept(Bodies(s)[i]));
  }

  // --------------------------------------------- equality of normal forms

  /** Bytes equal up to ASCII case. */
  predicate SameLetter(c: char, d: char) {
    || c == d || ('A' <= c <= 'Z' && d as int == c as int + 32) || ('A' <= d <= 'Z' && c as int == d as int + 32)
  }

  /** Equal texts up to ASCII case and blanks. */
  predicate SameText(a: string, b: string)
    decreases |a| + |b|
  {
    if a != "" && BlankAt(a, 0) then SameText(a[1..], b)
    else if b != "" && BlankAt(b, 0) then SameText(a, b[1..])
    else if a == "" || b == "" then a == b
    else SameLetter(a[0], b[0]) && SameText(a[1..], b[1..])
  }

  lemma SameLetterIff(c: char, d: char)
    ensures SameLetter(c, d) <==> Fold(c) == Fold(d)
  {
  }

  lemma {:induction false} SqueezeSameIff(a: string, b: string)
    ensures Squeeze(a) == Squeeze(b) <==> SameText(a, b)
    decreases |a| + |b|
  {
    hide Fold, SameLetter;
    if a != "" && BlankAt(a, 0) {
      SqueezeSameIff(a[1..], b);
    } else if b != "" && BlankAt(b, 0) {
      SqueezeSameIff(a, b[1..]);
    } else if a != "" && b != "" {
      SameLetterIff(a[0], b[0]);
      SqueezeSameIff(a[1..], b[1..]);
      assert Squeeze(a)[0] == Fold(a[0]) && Squeeze(a)[1..] == Squeeze(a[1..]);
      assert Squeeze(b)[0] == Fold(b[0]) && Squeeze(b)[1..] == Squeeze(b[1..]);
    }
  }

  /** Two schema texts have one normal form exactly if, without their comments, they differ
      in ASCII case and blanks only. */
  lemma NormalFormsEqualIff(s: string, t: string)
    ensures Normalize(s) == Normalize(t) <==> SameText(Strip(s), Strip(t))
  {
    SqueezeSameIff(Strip(s), Strip(t));
  }

  // ------------------------------------------------ letter case is not seen

  /** Texts that differ in ASCII case only. */
  predicate SameButCase(a: string, b: string) { |a| == |b| && forall k | 0 <= k < |a| :: SameLetter(a[k], b[k]) }

  /** Tokens whose texts differ in ASCII case only. */
  predicate AlikeToken(t: Token, u: Token) {
    match t
    case Char(c) => u.Char? && SameLetter(c, u.c)
    case Comment(x) => u.Comment? && SameButCase(x, u.text)
    case Quoted(x) => u.Quoted? && SameButCase(x, u.text)
  }

  predicate Alike(ts: seq<Token>, us: seq<Token>) {
    |ts| == |us| && forall k | 0 <= k < |ts| :: AlikeToken(ts[k], us[k])
  }

  lemma SameLetterFacts(c: char, d: char)
    requires SameLetter(c, d)
    ensures !('A' <= c <= 'Z' || 'a' <= c <= 'z') ==> d == c
    ensures !('A' <= d <= 'Z' || 'a' <= d <= 'z') ==> d == c
    ensures Ident(c) == Ident(d) && Blank(c) == Blank(d) && Opener(c) == Opener(d) && Fold(c) == Fold(d)
  {
  }

  lemma SameButCaseRest(a: string, b: string, n: nat)
    requires SameButCase(a, b) && n <= |a|
    ensures SameButCase(a[n..], b[n..]) && SameButCase(a[..n], b[..n])
  {
    hide SameLetter;
  }

  lemma {:induction false} LineLenSame(a: string, b: string)
    requires SameButCase(a, b)
    ensures LineLen(a) == LineLen(b)
  {
    hide SameLetter;
    if a != "" {
      SameLetterFacts(a[0], b[0]);
      LineLenSame(a[1..], b[1..]);
    }
  }

  lemma {:induction false} BlockLenSame(a: string, b: string)
    requires SameButCase(a, b)
    ensures BlockLen(a) == BlockLen(b)
  {
    hide SameLetter;
    if |a| >= 2 {
      SameLetterFacts(a[0], b[0]);
      SameLetterFacts(a[1], b[1]);
      BlockLenSame(a[1..], b[1..]);
    }
  }

  lemma {:induction false} QuoteLenSame(a: string, b: string, closer: char, doubling: bool)
    requires SameButCase(a, b) && !('A' <= closer <= 'Z' || 'a' <= closer <= 'z')
    ensures QuoteLen(a, closer, doubling) == QuoteLen(b, closer, doubling)
    decreases |a|
  {
    hide SameLetter;
    if a != "" {
      SameLetterFacts(a[0], b[0]);
      QuoteLenSame(a[1..], b[1..], closer, doubling);
      if |a| > 1 {
        SameLetterFacts(a[1], b[1]);
        QuoteLenSame(a[2..], b[2..], closer, doubling);
      }
    }
  }

  lemma FirstSame(a: string, b: string)
    requires SameButCase(a, b) && a != ""
    ensures FirstLen(a) == FirstLen(b) && AlikeToken(First(a), First(b))
  {
    hide LineLen, BlockLen, QuoteLen, SameLetter, SameButCase;
    FirstBytesSame(a, b);
    if LineStart(a) {
      SameButCaseRest(a, b, 2);
      LineLenSame(a[2..], b[2..]);
    } else if BlockStart(a) {
      SameButCaseRest(a, b, 2);
      BlockLenSame(a[2..], b[2..]);
    } else if Opener(a[0]) {
      SameButCaseRest(a, b, 1);
      QuoteLenSame(a[1..], b[1..], Closer(a[0]), a[0] != '[');
    }
    SameButCaseRest(a, b, FirstLen(a));
  }

  lemma FirstBytesSame(a: string, b: string)
    requires SameButCase(a, b) && a != ""
    ensures b != "" && |a| == |b| && SameLetter(a[0], b[0]) && LineStart(a) == LineStart(b) &&
            BlockStart(a) == BlockStart(b)
    ensures Opener(a[0]) == Opener(b[0]) && (Opener(a[0]) ==> a[0] == b[0])
  {
    SameLetterFacts(a[0], b[0]);
    if |a| > 1 { SameLetterFacts(a[1], b[1]); }
  }

  lemma {:induction false} LexSame(a: string, b: string)
    requires SameButCase(a, b)
    ensures Alike(Lex(a), Lex(b))
    decreases |a|
  {
    hide FirstLen, First, AlikeToken, SameLetter;
    if a != "" {
      FirstSame(a, b);
      SameButCaseRest(a, b, FirstLen(a));
      LexSame(a[FirstLen(a)..], b[FirstLen(b)..]);
    }
  }

  lemma SameButCaseConcat(a: string, b: string, c: string, d: string)
    requires SameButCase(a, b) && SameButCase(c, d)
    ensures SameButCase(a + c, b + d)
  {
    hide SameLetter;
  }

  lemma {:induction false} KeptSame(ts: seq<Token>, us: seq<Token>)
    requires Alike(ts, us)
    ensures SameButCase(Kept(ts), Kept(us))
  {
    hide SameLetter, SameButCase;
    if ts == [] {
      NothingDiffers();
    } else {
      AlikeFirst(ts, us);
      KeptSame(ts[1..], us[1..]);
      if !ts[0].Comment? { SameButCaseConcat(Text(ts[0]), Text(us[0]), Kept(ts[1..]), Kept(us[1..])); }
    }
  }

  lemma NothingDiffers()
    ensures SameButCase("", "")
  {
  }

  lemma AlikeFirst(ts: seq<Token>, us: seq<Token>)
    requires Alike(ts, us) && ts != []
    ensures us != [] && AlikeToken(ts[0], us[0]) && Alike(ts[1..], us[1..]) && SameButCase(Text(ts[0]), Text(us[0]))
  {
    hide SameLetter;
  }

  lemma {:induction false} SqueezeSame(a: string, b: string)
    requires SameButCase(a, b)
    ensures Squeeze(a) == Squeeze(b)
  {
    hide SameLetter, Fold, Blank;
    if a != "" {
      SameLetterFacts(a[0], b[0]);
      SqueezeSame(a[1..], b[1..]);
    }
  }

  lemma NormalizeSame(a: string, b: string)
    requires SameButCase(a, b)
    ensures Normalize(a) == Normalize(b)
  {
    hide SameButCase, Alike;
    LexSame(a, b);
    KeptSame(Lex(a), Lex(b));
    SqueezeSame(Kept(Lex(a)), Kept(Lex(b)));
  }

  // ------------------------------------------------- the two scans in step

  ghost predicate InStep(st: Capture, us: Capture) {
    && st.exprs == us.exprs && st.depth == us.depth && st.buf.Some? == us.buf.Some?
    && (st.buf.Some? ==> SameButCase(st.buf.value, us.buf.value))
  }

  lemma AppendInStep(st: Capture, us: Capture, a: string, b: string)
    requires InStep(st, us) && SameButCase(a, b)
    ensures InStep(Append(st, a), Append(us, b))
  {
    hide SameButCase;
    if st.buf.Some? { SameButCaseConcat(st.buf.value, us.buf.value, a, b); }
  }

  lemma CapturedInStep(st: Capture, us: Capture, c: char, d: char)
    requires InStep(st, us) && st.buf.Some? && SameLetter(c, d)
    ensures InStep(Captured(st, c), Captured(us, d))
  {
    hide SameButCase, Normalize;
    SameLetterFacts(c, d);
    OneByte(c, d);
    AppendInStep(st, us, [c], [d]);
    NormalizeSame(st.buf.value, us.buf.value);
  }

  lemma OneByte(c: char, d: char)
    requires SameLetter(c, d)
    ensures SameButCase([c], [d])
  {
  }

  lemma KeywordAlike(ts: seq<Token>, us: seq<Token>)
    requires Alike(ts, us)
    ensures Keyword(ts) <==> Keyword(us)
  {
    hide SameLetter, SameButCase;
    forall k | 0 <= k < |ts| && ts[k].Char?
        ensures us[k].Char? && Fold(ts[k].c) == Fold(us[k].c) && Ident(ts[k].c) == Ident(us[k].c) {
      assert AlikeToken(ts[k], us[k]);
      SameLetterFacts(ts[k].c, us[k].c);
    }
    forall k | 0 <= k < |ts| ensures ts[k].Char? <==> us[k].Char? { assert AlikeToken(ts[k], us[k]); }
  }

  lemma {:induction false} SkipAlike(ts: seq<Token>, us: seq<Token>)
    requires Alike(ts, us)
    ensures Alike(Skip(ts), Skip(us))
    ensures Skip(ts) != [] ==> (Skip(ts)[0] == Char('(') <==> Skip(us)[0] == Char('('))
  {
    hide SameLetter, SameButCase;
    if ts != [] {
      AlikeFirst(ts, us);
      if ts[0].Char? { SameLetterFacts(ts[0].c, us[0].c); }
      SkipAlike(ts[1..], us[1..]);
    }
  }

  lemma AlikeRest(ts: seq<Token>, us: seq<Token>, n: nat)
    requires Alike(ts, us) && n <= |ts|
    ensures Alike(ts[n..], us[n..])
  {
    hide AlikeToken;
  }

  lemma OpensAlike(ts: seq<Token>, us: seq<Token>)
    requires Alike(ts, us) && Keyword(ts) && Keyword(us)
    ensures Opens(ts) <==> Opens(us)
    ensures Opens(ts) ==> |ts| >= 5 && |us| >= 5 && Skip(ts[5..]) != [] && Skip(us[5..]) != [] &&
                          Alike(Skip(ts[5..])[1..], Skip(us[5..])[1..])
  {
    hide Alike;
    AlikeRest(ts, us, 5);
    SkipAlike(ts[5..], us[5..]);
    AlikeLength(Skip(ts[5..]), Skip(us[5..]));
    if Opens(ts) { AlikeRest(Skip(ts[5..]), Skip(us[5..]), 1); }
  }

  lemma AlikeLength(ts: seq<Token>, us: seq<Token>)
    requires Alike(ts, us)
    ensures |ts| == |us|
  {
  }

  lemma {:induction false} ScanAlike(ts: seq<Token>, us: seq<Token>, apart: bool, st: Capture, vt: Capture)
    requires Alike(ts, us) && InStep(st, vt)
    ensures Scan(ts, apart, st) == Scan(us, apart, vt)
    decreases |ts|
  {
    hide Alike, Keyword, Captured, Append, Opens, SameLetter, SameButCase, Skip;
    AlikeLength(ts, us);
    if ts == [] { return; }
    AlikeFirst(ts, us);
    if ts[0].Comment? {
      ScanAlike(ts[1..], us[1..], true, st, vt);
    } else if ts[0].Quoted? {
      AppendInStep(st, vt, ts[0].text, us[0].text);
      ScanAlike(ts[1..], us[1..], true, Append(st, ts[0].text), Append(vt, us[0].text));
    } else {
      SameLetterFacts(ts[0].c, us[0].c);
      KeywordAlike(ts, us);
      if st.buf.Some? {
        CapturedInStep(st, vt, ts[0].c, us[0].c);
        ScanAlike(ts[1..], us[1..], !Ident(ts[0].c), Captured(st, ts[0].c), Captured(vt, us[0].c));
      } else {
        if Keyword(ts) { OpensAlike(ts, us); }
        if apart && Keyword(ts) && Opens(ts) {
          NothingDiffers();
          ScanAlike(Skip(ts[5..])[1..], Skip(us[5..])[1..], true, Capture(st.exprs, Some(""), 1),
              Capture(vt.exprs, Some(""), 1));
        } else {
          ScanAlike(ts[1..], us[1..], !Ident(ts[0].c), st, vt);
        }
      }
    }
  }

  /** Schema texts that differ in ASCII case only have the same CHECK expressions. */
  lemma ChecksIgnoreCase(s: string, t: string)
    requires SameButCase(s, t)
    ensures Checks(s) == Checks(t)
  {
    hide Lex, Scan, Alike, SameButCase;
    LexSame(s, t);
    ScanAlike(Lex(s), Lex(t), true, START, START);
  }
}
