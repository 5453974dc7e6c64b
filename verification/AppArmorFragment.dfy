// The managed AppArmor fragment (apparmor.go): printed from the canonical
// boundary list, and read back only if it is exactly such a print.
module AppArmorFragment {
  import opened Order
  import opened Paths
  import opened Policy
  import opened JsonText
  import opened ManagedBoundaries

  const HEADER1: string := "# Generated by docker-helper. Do not edit."
  const MANAGED: string := "# Managed AppArmor workspace "
  const BOUNDARIES_FOR: string := "boundaries for docker-helper-system profile."
  const ROOTS_FOR: string := "roots for docker-helper-system profile."
  const HEADER2: string := MANAGED + BOUNDARIES_FOR
  const LEGACY_HEADER2: string := MANAGED + ROOTS_FOR
  const META: string := "# root-json: "
  const OBJECT_START: string := "{\"path\":\""
  const OBJECT_END: string := ",\"kind\":\"regular-file\"}"

  /** validateBoundaryLexical and validateHostPathText, for text that is valid Unicode. */
  predicate LexicallyValid(p: Path) {
    Canonical(p) && p != "/" && forall i | 0 <= i < |p| :: p[i] !in "*?[]{}" && !ControlCharacter(p[i])
  }

  predicate ControlCharacter(c: char) { c as int < 0x20 || 0x7f <= c as int < 0xa0 }

  datatype PathFault = NotAbsolute | RootPath | NotClean | Pattern(c: char) | Control(c: char)

  /** validateBoundaryLexical and the validateHostPathText it ends with. Its test for a
      trailing slash is left out: no clean path but the root has one. */
  method ValidateBoundaryPath(path: string) returns (fault: Option<PathFault>)
    ensures fault.None? <==> LexicallyValid(path)
    ensures fault.None? <==>
            && path != "" && path[0] == '/' && path != "/" && Clean(path) == path
            && forall c | c in path ::
                 && c != '*' && c != '?' && c != '[' && c != ']' && c != '{' && c != '}'
                 && (0x20 <= c as int < 0x7f || 0xa0 <= c as int)
    ensures fault.Some? ==>
            match fault.value
            case NotAbsolute => path == "" || path[0] != '/'
            case RootPath => path == "/"
            case NotClean => path != "" && path[0] == '/' && Clean(path) != path
            case Pattern(c) => c in path && (c == '*' || c == '?' || c == '[' || c == ']' || c == '{' || c == '}')
            case Control(c) => c in path && (c as int < 0x20 || 0x7f <= c as int < 0xa0)
  {
    hide Canonical, Clean;
    CanonicalIff(path);
    if path == "" || path[0] != '/' { return Some(NotAbsolute); }
    if path == "/" { return Some(RootPath); }
    if Clean(path) != path { return Some(NotClean); }
    for i := 0 to |path|
      invariant forall k | 0 <= k < i :: path[k] !in "*?[]{}"
    {
      assert path[i] in path;
      if path[i] in "*?[]{}" { return Some(Pattern(path[i])); }
    }
    for i := 0 to |path|
      invariant forall k | 0 <= k < i :: !ControlCharacter(path[k])
    {
      assert path[i] in path;
      if ControlCharacter(path[i]) { return Some(Control(path[i])); }
    }
    return None;
  }

  // ------------------------------------------------------------ printing

  function EscapePath(p: string): string {
    if p == "" then ""
    else (if p[0] == '\\' then "\\\\" else if p[0] == '"' then "\\\"" else [p[0]]) + EscapePath(p[1..])
  }

  function MetaText(b: Boundary): string {
    if b.kind == Directory then Quote(b.path) else "{\"path\":" + Quote(b.path) + OBJECT_END
  }

  /** The lines of one boundary: a blank, the metadata, the reachability rules. */
  function BoundaryLines(b: Boundary): seq<string> {
    var escaped := EscapePath(b.path);
    if b.kind == RegularFile then ["", META + MetaText(b), "\"" + escaped + "\" r,"]
    else ["", META + MetaText(b), "\"" + escaped + "/\" r,", "\"" + escaped + "/**\" r,"]
  }

  function Body(bs: seq<Boundary>): seq<string> {
    if bs == [] then [] else Body(bs[..|bs| - 1]) + BoundaryLines(bs[|bs| - 1])
  }

  function Unlines(lines: seq<string>): string {
    if lines == [] then "" else Unlines(lines[..|lines| - 1]) + lines[|lines| - 1] + "\n"
  }

  function RenderWith(header2: string, bs: seq<Boundary>): string { Unlines([HEADER1, header2] + Body(Managed(bs))) }

  function Render(bs: seq<Boundary>): string { RenderWith(HEADER2, bs) }

  /** The print with the second header line an older version wrote. */
  function LegacyRender(bs: seq<Boundary>): string { RenderWith(LEGACY_HEADER2, bs) }

  lemma {:induction false} UnlinesConcat(a: seq<string>, b: seq<string>)
    ensures Unlines(a + b) == Unlines(a) + Unlines(b)
  {
    if b == [] {
      assert a + b == a;
    } else {
      var n := |b| - 1;
      UnlinesConcat(a, b[..n]);
      assert (a + b)[..|a + b| - 1] == a + b[..n];
      assert Unlines(a) + (Unlines(b[..n]) + b[n] + "\n") == Unlines(a) + Unlines(b[..n]) + b[n] + "\n";
    }
  }

  lemma UnlinesFew(a: string, b: string, c: string, d: string)
    ensures Unlines([a, b]) == a + "\n" + b + "\n"
    ensures Unlines([a, b, c]) == a + "\n" + b + "\n" + c + "\n"
    ensures Unlines([a, b, c, d]) == a + "\n" + b + "\n" + c + "\n" + d + "\n"
  {
    assert [a][..0] == [] && [a, b][..1] == [a] && [a, b, c][..2] == [a, b] && [a, b, c, d][..3] == [a, b, c];
    assert Unlines([a]) == a + "\n";
  }

  /** renderFragment. */
  method RenderFragment(bs: seq<Boundary>) returns (buf: string)
    ensures buf == Render(bs)
  {
    hide Quote, EscapePath, Body, Unlines;
    var sorted := SortManaged(bs);
    buf := HEADER1 + "\n";
    buf := buf + (HEADER2 + "\n");
    RenderStarts(sorted);
    for i := 0 to |sorted|
      invariant buf == Unlines([HEADER1, HEADER2] + Body(sorted[..i]))
    {
      var b := sorted[i];
      RenderStep([HEADER1, HEADER2], sorted, i);
      var escaped := EscapePath(b.path);
      var added := "\n";
      if b.kind == RegularFile {
        var meta := "{\"path\":" + Quote(b.path) + OBJECT_END;
        added := added + (META + meta + "\n");
        added := added + ("\"" + escaped + "\" r," + "\n");
      } else {
        added := added + (META + Quote(b.path) + "\n");
        added := added + ("\"" + escaped + "/\" r," + "\n");
        added := added + ("\"" + escaped + "/**\" r," + "\n");
      }
      AddedLines(b, added);
      buf := buf + added;
    }
    assert sorted[..|sorted|] == sorted;
  }

  lemma RenderStarts(sorted: seq<Boundary>)
    ensures HEADER1 + "\n" + (HEADER2 + "\n") == Unlines([HEADER1, HEADER2] + Body(sorted[..0]))
  {
    UnlinesFew(HEADER1, HEADER2, "", "");
    assert [HEADER1, HEADER2] + Body(sorted[..0]) == [HEADER1, HEADER2];
  }

  lemma RenderStep(headers: seq<string>, sorted: seq<Boundary>, i: nat)
    requires i < |sorted|
    ensures Unlines(headers + Body(sorted[..i + 1])) == Unlines(headers + Body(sorted[..i])) +
            Unlines(BoundaryLines(sorted[i]))
  {
    hide BoundaryLines, Unlines;
    assert sorted[..i + 1][..i] == sorted[..i];
    assert headers + Body(sorted[..i + 1]) == (headers + Body(sorted[..i])) + BoundaryLines(sorted[i]);
    UnlinesConcat(headers + Body(sorted[..i]), BoundaryLines(sorted[i]));
  }

  lemma AddedLines(b: Boundary, added: string)
    requires var escaped := EscapePath(b.path);
             added == if b.kind == RegularFile
                      then "\n" + (META + MetaText(b) + "\n") + ("\"" + escaped + "\" r," + "\n")
                      else
                        "\n" + (META + MetaText(b) + "\n") + ("\"" + escaped + "/\" r," + "\n") +
                        ("\"" + escaped + "/**\" r," + "\n")
    ensures added == Unlines(BoundaryLines(b))
  {
    hide MetaText, EscapePath, Unlines;
    var escaped, meta := EscapePath(b.path), META + MetaText(b);
    if b.kind == RegularFile {
      ThreeLines(meta, "\"" + escaped + "\" r,");
    } else {
      ThreeLines(meta, "\"" + escaped + "/\" r,");
      FourLines(meta, "\"" + escaped + "/\" r,", "\"" + escaped + "/**\" r,");
    }
  }

  lemma ThreeLines(b: string, c: string)
    ensures Unlines(["", b, c]) == "\n" + (b + "\n") + (c + "\n")
  {
    hide Unlines;
    UnlinesFew("", b, c, "");
    assert "" + "\n" == "\n";
  }

  lemma FourLines(b: string, c: string, d: string)
    ensures Unlines(["", b, c, d]) == "\n" + (b + "\n") + (c + "\n") + (d + "\n")
  {
    hide Unlines;
    UnlinesFew("", b, c, d);
    assert "" + "\n" == "\n";
  }

  // ------------------------------------------------------------- reading

  /** parseRootJSONBoundary: a plain JSON string is a directory, the object form a
      regular file. The object is read as the printer writes it: what any other
      spelling decodes to does not matter, because the whole text is compared with
      its own print afterwards. */
  function DecodeMeta(meta: string): Option<Boundary> {
    if meta != "" && meta[0] == '"' then
      match Unquote(meta[1..])
      case None => None
      case Some(r) => if r.1 == "" then Some(Boundary(r.0, Directory)) else None
    else if OBJECT_START <= meta then
      match Unquote(meta[|OBJECT_START|..])
      case None => None
      case Some(r) => if r.1 == OBJECT_END then Some(Boundary(r.0, RegularFile)) else None
    else None
  }

  /** The valid boundaries of the metadata lines, None if one is malformed. */
  function ReadLines(lines: seq<string>): Option<seq<Boundary>> {
    if lines == [] then Some([])
    else
      var n := |lines| - 1;
      match ReadLines(lines[..n])
      case None => None
      case Some(before) =>
        if !(META <= lines[n]) then Some(before)
        else
          match DecodeMeta(lines[n][|META|..])
          case None => None
          case Some(b) => if LexicallyValid(b.path) then Some(before + [b]) else None
  }

  function Parse(data: string): Option<seq<Boundary>> {
    if data == "" || data[|data| - 1] != '\n' then None
    else
      var lines := Split(data, '\n');
      if |lines| < 2 || lines[0] != HEADER1 || (lines[1] != HEADER2 && lines[1] != LEGACY_HEADER2) then None
      else
        match ReadLines(lines[2..])
        case None => None
        case Some(bs) => if data == Render(bs) || data == LegacyRender(bs) then Some(Managed(bs)) else None
  }

  lemma {:induction false} ReadLinesFail(lines: seq<string>, k: nat)
    requires k <= |lines| && ReadLines(lines[..k]).None?
    ensures ReadLines(lines).None?
    decreases |lines|
  {
    hide DecodeMeta, LexicallyValid;
    if k < |lines| {
      assert lines[..|lines| - 1][..k] == lines[..k];
      ReadLinesFail(lines[..|lines| - 1], k);
    } else {
      assert lines[..k] == lines;
    }
  }

  /** parseFragment. */
  method ParseFragment(data: string) returns (r: Option<seq<Boundary>>)
    ensures r == Parse(data)
  {
    hide DecodeMeta, LexicallyValid, RenderWith;
    if data == "" || data[|data| - 1] != '\n' { return None; }
    var lines := Split(data, '\n');
    if |lines| < 2 { return None; }
    if lines[0] != HEADER1 { return None; }
    if lines[1] != HEADER2 && lines[1] != LEGACY_HEADER2 { return None; }
    var body := lines[2..];
    var boundaries: seq<Boundary> := [];
    for i := 2 to |lines|
      invariant ReadLines(body[..i - 2]) == Some(boundaries)
    {
      var line := lines[i];
      assert body[..i - 1][..i - 2] == body[..i - 2] && body[i - 2] == line;
      if line == "" { continue; }
      if META <= line {
        var boundary := DecodeMeta(line[|META|..]);
        if boundary.None? {
          ReadLinesFail(body, i - 1);
          return None;
        }
        var fault := ValidateBoundaryPath(boundary.value.path);
        if fault.Some? {
          ReadLinesFail(body, i - 1);
          return None;
        }
        boundaries := boundaries + [boundary.value];
      }
    }
    assert body[..|body|] == body;
    var deduped := SortManaged(boundaries);
    var expected := RenderFragment(deduped);
    ManagedIdempotent(boundaries);
    SameRender(deduped, boundaries);
    if data != expected && data != LegacyRender(deduped) { return None; }
    return Some(deduped);
  }

  lemma SameRender(a: seq<Boundary>, b: seq<Boundary>)
    requires Managed(a) == Managed(b)
    ensures Render(a) == Render(b) && LegacyRender(a) == LegacyRender(b)
  {
  }
}
