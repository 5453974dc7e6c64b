// The fragment's text and its boundary list determine each other.
module FragmentRoundTrip {
  import opened Order
  import opened Paths
  import opened Policy
  import opened JsonText
  import opened ManagedBoundaries
  import opened AppArmorFragment

  ghost predicate AllValid(bs: seq<Boundary>) { forall b | b in bs :: LexicallyValid(b.path) }

  // --------------------------------------------------------- the metadata

  lemma DecodeMetaText(b: Boundary)
    ensures DecodeMeta(MetaText(b)) == Some(b)
  {
    hide EscapeAll, Unquote;
    var m := MetaText(b);
    if b.kind == Directory {
      QuoteRoundTrip(b.path, "");
      assert m[1..] == EscapeAll(b.path) + "\"" + "";
    } else {
      QuoteRoundTrip(b.path, OBJECT_END);
      assert m == OBJECT_START + (EscapeAll(b.path) + "\"" + OBJECT_END);
      assert m[|OBJECT_START|..] == EscapeAll(b.path) + "\"" + OBJECT_END;
      assert OBJECT_START[0] == '{';
    }
  }

  lemma {:induction false} EscapePathOneLine(p: string)
    requires '\n' !in p
    ensures '\n' !in EscapePath(p)
  {
    if p != "" {
      EscapePathOneLine(p[1..]);
      assert p == [p[0]] + p[1..];
    }
  }

  lemma ValidPathOneLine(p: Path)
    requires LexicallyValid(p)
    ensures '\n' !in p
  {
    hide Canonical;
    assert ControlCharacter('\n');
  }

  predicate OneLine(l: string) { '\n' !in l }

  lemma BoundaryLinesOneLine(b: Boundary)
    requires LexicallyValid(b.path)
    ensures forall l | l in BoundaryLines(b) :: OneLine(l)
  {
    hide EscapePath, EscapeAll, LexicallyValid;
    ValidPathOneLine(b.path);
    EscapePathOneLine(b.path);
    EscapeKeepsLines(b.path);
    MetaOneLine(b);
  }

  lemma MetaOneLine(b: Boundary)
    requires '\n' !in EscapeAll(b.path)
    ensures OneLine(META + MetaText(b))
  {
    hide EscapeAll;
    assert OneLine(META) && OneLine("{\"path\":") && OneLine(OBJECT_END) && OneLine("\"");
  }

  lemma {:induction false} BodyOneLine(bs: seq<Boundary>)
    requires AllValid(bs)
    ensures forall l | l in Body(bs) :: OneLine(l)
  {
    hide BoundaryLines, LexicallyValid, OneLine;
    if bs != [] {
      var n := |bs| - 1;
      BodyOneLine(bs[..n]);
      assert bs[n] in bs;
      BoundaryLinesOneLine(bs[n]);
    }
  }

  // ------------------------------------------------------------ the lines

  lemma ReadStep(lines: seq<string>, line: string)
    requires ReadLines(lines).Some?
    ensures ReadLines(lines + [line]) ==
            if !(META <= line) then ReadLines(lines)
            else match DecodeMeta(line[|META|..])
                 case None => None
                 case Some(b) => if LexicallyValid(b.path) then Some(ReadLines(lines).value + [b]) else None
  {
    hide DecodeMeta, LexicallyValid;
    var all := lines + [line];
    assert all[..|all| - 1] == lines;
  }

  lemma PlainLine(line: string)
    requires line == "" || line[0] == '"'
    ensures !(META <= line)
  {
    assert META[0] == '#';
  }

  /** Reading the lines of one more boundary yields that boundary. */
  lemma ReadBoundary(lines: seq<string>, b: Boundary)
    requires ReadLines(lines).Some? && LexicallyValid(b.path)
    ensures ReadLines(lines + BoundaryLines(b)) == Some(ReadLines(lines).value + [b])
  {
    hide ReadLines, DecodeMeta, LexicallyValid, EscapePath, MetaText;
    var l := BoundaryLines(b);
    PlainLine(l[0]);
    ReadStep(lines, l[0]);
    var one := lines + [l[0]];
    DecodeMetaText(b);
    assert META <= l[1] && l[1][|META|..] == MetaText(b);
    ReadStep(one, l[1]);
    var two := one + [l[1]];
    PlainLine(l[2]);
    ReadStep(two, l[2]);
    var three := two + [l[2]];
    if b.kind == RegularFile {
      assert lines + l == three;
    } else {
      PlainLine(l[3]);
      ReadStep(three, l[3]);
      assert lines + l == three + [l[3]];
    }
  }

  lemma {:induction false} ReadBody(bs: seq<Boundary>)
    requires AllValid(bs)
    ensures ReadLines(Body(bs)) == Some(bs)
  {
    hide ReadLines, BoundaryLines, LexicallyValid;
    if bs == [] {
      ReadNothing();
    } else {
      var n := |bs| - 1;
      ReadBody(bs[..n]);
      assert bs[n] in bs;
      ReadBoundary(Body(bs[..n]), bs[n]);
      assert bs == bs[..n] + [bs[n]];
    }
  }

  lemma ReadNothing()
    ensures ReadLines([]) == Some([])
  {
  }

  lemma {:induction false} ReadYieldsValid(lines: seq<string>)
    ensures ReadLines(lines).Some? ==> AllValid(ReadLines(lines).value)
  {
    hide DecodeMeta, LexicallyValid;
    if lines != [] { ReadYieldsValid(lines[..|lines| - 1]); }
  }

  /** Splitting a text of newline-free lines gives them back, and a last empty one. */
  lemma {:induction false} SplitUnlines(lines: seq<string>)
    requires forall l | l in lines :: OneLine(l)
    ensures Split(Unlines(lines), '\n') == lines + [""]
    ensures lines != [] ==> Unlines(lines) != "" && Unlines(lines)[|Unlines(lines)| - 1] == '\n'
    decreases |lines|
  {
    if lines != [] {
      var first, rest := lines[0], lines[1..];
      assert lines == [first] + rest;
      SplitUnlines(rest);
      UnlinesConcat([first], rest);
      assert [first][..0] == [] && Unlines([first]) == "" + first + "\n";
      assert Unlines(lines) == first + ['\n'] + Unlines(rest);
      assert first in lines && OneLine(first);
      SplitConcat(first, Unlines(rest), '\n');
      SplitWord(first, '\n');
    }
  }

  // ------------------------------------------------------------- theorems

  lemma ManagedValid(bs: seq<Boundary>)
    requires AllValid(bs)
    ensures AllValid(Managed(bs))
  {
    hide LexicallyValid;
    ManagedIs(bs);
  }

  lemma HeadersOneLine()
    ensures OneLine(HEADER1) && OneLine(HEADER2) && OneLine(LEGACY_HEADER2)
  {
    hide OneLine;
    CurrentOneLine();
    LegacyOneLine();
    FirstOneLine();
  }

  lemma FirstOneLine()
    ensures OneLine(HEADER1)
  {
  }

  lemma CurrentOneLine()
    ensures OneLine(HEADER2)
  {
    assert OneLine(MANAGED);
    assert OneLine(BOUNDARIES_FOR);
  }

  lemma LegacyOneLine()
    ensures OneLine(LEGACY_HEADER2)
  {
    assert OneLine(MANAGED);
    assert OneLine(ROOTS_FOR);
  }

  /** Parsing a print, with either second header line, gives the canonical boundary list. */
  lemma RoundTrip(bs: seq<Boundary>)
    requires AllValid(bs)
    ensures Parse(Render(bs)) == Some(Managed(bs))
    ensures Parse(LegacyRender(bs)) == Some(Managed(bs))
  {
    ManagedIdempotent(bs);
    SameRender(Managed(bs), bs);
    RoundTripWith(HEADER2, bs);
    RoundTripWith(LEGACY_HEADER2, bs);
  }

  lemma RoundTripWith(header2: string, bs: seq<Boundary>)
    requires AllValid(bs) && (header2 == HEADER2 || header2 == LEGACY_HEADER2)
    requires Render(Managed(bs)) == Render(bs) && LegacyRender(Managed(bs)) == LegacyRender(bs)
    ensures Parse(RenderWith(header2, bs)) == Some(Managed(bs))
  {
    hide Body, ReadLines, LexicallyValid, OneLine, Unlines, Managed, Split;
    var m := Managed(bs);
    ManagedValid(bs);
    ManagedIdempotent(bs);
    var body := Body(m);
    var lines := [HEADER1, header2] + body;
    HeadersOneLine();
    BodyOneLine(m);
    SplitUnlines(lines);
    ReadBody(m);
    PlainLine("");
    ReadStep(body, "");
    assert (lines + [""])[2..] == body + [""];
  }

  /** A text is accepted exactly when it is the print of some valid boundaries, in the
      current or the older heading; then its boundaries are valid, canonical, and
      print to that very text. */
  lemma AcceptedIff(data: string)
    ensures Parse(data).Some? <==> exists bs :: AllValid(bs) && (data == Render(bs) || data == LegacyRender(bs))
    ensures Parse(data).Some? ==>
              var bs := Parse(data).value;
              AllValid(bs) && Managed(bs) == bs && (data == Render(bs) || data == LegacyRender(bs))
  {
    hide RenderWith, Managed, ReadLines, Split, LexicallyValid;
    if Parse(data).Some? {
      var lines := Split(data, '\n');
      var bs := ReadLines(lines[2..]).value;
      ReadYieldsValid(lines[2..]);
      ManagedValid(bs);
      ManagedIdempotent(bs);
      SameRender(Managed(bs), bs);
    }
    if bs :| AllValid(bs) && (data == Render(bs) || data == LegacyRender(bs)) {
      RoundTrip(bs);
    }
  }

  /** Valid boundary lists print alike exactly when their canonical lists are equal. */
  lemma PrintsAlikeIff(a: seq<Boundary>, b: seq<Boundary>)
    requires AllValid(a) && AllValid(b)
    ensures Render(a) == Render(b) <==> Managed(a) == Managed(b)
  {
    hide RenderWith, Managed, Parse;
    RoundTrip(a);
    RoundTrip(b);
    if Managed(a) == Managed(b) { SameRender(a, b); }
  }
}
