// What the rules of the managed fragment grant, read as AppArmor reads a quoted
// path: a backslash takes the next character as it is (apparmor.go:211-215, 275-303).
module FragmentRules {
  import opened ManagedBoundaries
  import opened AppArmorFragment
  import opened Policy

  /** A quoted text after its opening quote, and what follows its closing quote. */
  datatype Quoted = Quoted(text: string, rest: string)

  function Unquote(s: string): Option<Quoted> {
    if s == "" then None
    else if s[0] == '"' then Some(Quoted("", s[1..]))
    else
      var escaped := s[0] == '\\';
      if escaped && |s| == 1 then None
      else
        var k := if escaped then 1 else 0;
        match Unquote(s[k + 1..])
        case None => None
        case Some(q) => Some(Quoted([s[k]] + q.text, q.rest))
  }

  /** The rule grants read access to exactly the pattern `target`. */
  predicate Grants(line: string, target: string) {
    line != "" && line[0] == '"' && Unquote(line[1..]) == Some(Quoted(target, " r,"))
  }

  function Longer(c: char, q: Option<Quoted>): Option<Quoted> {
    match q case None => None case Some(r) => Some(Quoted([c] + r.text, r.rest))
  }

  lemma UnquoteEscaped(c: char, tail: string)
    ensures Unquote(['\\', c] + tail) == Longer(c, Unquote(tail))
  {
    var s := ['\\', c] + tail;
    assert s[2..] == tail && s[1] == c;
  }

  lemma UnquotePlain(c: char, tail: string)
    requires c != '"' && c != '\\'
    ensures Unquote([c] + tail) == Longer(c, Unquote(tail))
  {
    var s := [c] + tail;
    assert s[1..] == tail;
  }

  /** An escaped path reads back, whatever plain text follows it within the quotes: no
      quote inside it is unescaped. */
  lemma {:induction false} EscapeReads(p: string, plain: string, rest: string)
    requires forall i | 0 <= i < |plain| :: plain[i] != '"' && plain[i] != '\\'
    ensures Unquote(EscapePath(p) + plain + "\"" + rest) == Some(Quoted(p + plain, rest))
  {
    hide Unquote;
    if p == "" {
      PlainReads(plain, rest);
      assert EscapePath(p) + plain + "\"" + rest == plain + "\"" + rest && p + plain == plain;
    } else {
      EscapeReads(p[1..], plain, rest);
      var tail := EscapePath(p[1..]) + plain + "\"" + rest;
      assert p + plain == [p[0]] + (p[1..] + plain);
      if p[0] == '\\' || p[0] == '"' {
        UnquoteEscaped(p[0], tail);
        assert EscapePath(p) == ['\\', p[0]] + EscapePath(p[1..]);
        assert EscapePath(p) + plain + "\"" + rest == ['\\', p[0]] + tail;
      } else {
        UnquotePlain(p[0], tail);
        assert EscapePath(p) + plain + "\"" + rest == [p[0]] + tail;
      }
    }
  }

  lemma {:induction false} PlainReads(plain: string, rest: string)
    requires forall i | 0 <= i < |plain| :: plain[i] != '"' && plain[i] != '\\'
    ensures Unquote(plain + "\"" + rest) == Some(Quoted(plain, rest))
  {
    hide Unquote;
    if plain == "" {
      ClosingQuote(rest);
      assert plain + "\"" + rest == "\"" + rest;
    } else {
      PlainReads(plain[1..], rest);
      UnquotePlain(plain[0], plain[1..] + "\"" + rest);
      assert plain + "\"" + rest == [plain[0]] + (plain[1..] + "\"" + rest) && plain == [plain[0]] + plain[1..];
    }
  }

  lemma ClosingQuote(rest: string)
    ensures Unquote("\"" + rest) == Some(Quoted("", rest))
  {
    assert ("\"" + rest)[1..] == rest;
  }

  /** A regular file's rule grants exactly that file; a directory's two rules grant the
      directory and everything below it. */
  lemma RulesGrant(b: Boundary)
    ensures var lines := BoundaryLines(b);
            && lines[0] == "" && lines[1] == META + MetaText(b)
            && (b.kind == RegularFile ==> |lines| == 3 && Grants(lines[2], b.path))
            && (b.kind == Directory ==>
                |lines| == 4 && Grants(lines[2], b.path + "/") && Grants(lines[3], b.path + "/**"))
  {
    hide EscapePath, MetaText, Unquote;
    RuleGrants(b.path, "");
    RuleGrants(b.path, "/");
    RuleGrants(b.path, "/**");
    assert b.path + "" == b.path;
    var escaped := EscapePath(b.path);
    assert "\"" + escaped + "\" r," == "\"" + (escaped + "" + "\"" + " r,");
    assert "\"" + escaped + "/\" r," == "\"" + (escaped + "/" + "\"" + " r,");
    assert "\"" + escaped + "/**\" r," == "\"" + (escaped + "/**" + "\"" + " r,");
  }

  lemma RuleGrants(p: string, plain: string)
    requires forall i | 0 <= i < |plain| :: plain[i] != '"' && plain[i] != '\\'
    ensures Grants("\"" + (EscapePath(p) + plain + "\"" + " r,"), p + plain)
  {
    hide EscapePath, Unquote;
    EscapeReads(p, plain, " r,");
    var t := EscapePath(p) + plain + "\"" + " r,";
    assert ("\"" + t)[1..] == t;
  }
}
