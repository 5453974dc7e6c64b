// JSON strings as the fragment carries them: Go's encoder, and the string
// grammar of section 7 of RFC 8259 read back.
module JsonText {
  import opened Policy

  function HexDigit(n: nat): char
    requires n < 16
  {
    "0123456789abcdef"[n]
  }

  function HexValue(c: char): Option<nat> {
    if '0' <= c <= '9' then Some(c as int - '0' as int)
    else if 'a' <= c <= 'f' then Some(c as int - 'a' as int + 10)
    else if 'A' <= c <= 'F' then Some(c as int - 'A' as int + 10)
    else None
  }

  function Hex4(n: nat): string
    requires n < 0x10000
  {
    [HexDigit(n / 0x1000), HexDigit(n / 0x100 % 0x10), HexDigit(n / 0x10 % 0x10), HexDigit(n % 0x10)]
  }

  /** The characters the encoder writes as a \u escape: the rest of the control
      characters, the HTML-sensitive ones, and the two line separators. */
  predicate UnicodeEscaped(c: char) {
    (c as int < 0x20 && c != '\n' && c != '\r' && c != '\t') || c == '<' || c == '>' || c == '&' ||
        c as int == 0x2028 || c as int == 0x2029
  }

  function Escape(c: char): string {
    if c == '"' then "\\\""
    else if c == '\\' then "\\\\"
    else if c == '\n' then "\\n"
    else if c == '\r' then "\\r"
    else if c == '\t' then "\\t"
    else if UnicodeEscaped(c) then "\\u" + Hex4(c as int)
    else [c]
  }

  function EscapeAll(s: string): string {
    if s == "" then "" else Escape(s[0]) + EscapeAll(s[1..])
  }

  /** json.Marshal of a string. */
  function Quote(s: string): string { "\"" + EscapeAll(s) + "\"" }

  predicate Bare(c: char) {
    c as int >= 0x20 && c != '<' && c != '>' && c != '&' && c as int != 0x2028 && c as int != 0x2029
  }

  lemma HexIsBare(n: nat)
    requires n < 16
    ensures Bare(HexDigit(n))
  {
  }

  lemma BareLetters()
    ensures forall d | d in "\\\"nrtu" :: Bare(d)
  {
  }

  lemma BareIs(c: char)
    ensures !UnicodeEscaped(c) && c != '\n' && c != '\r' && c != '\t' ==> Bare(c)
    ensures Bare(c) ==> !UnicodeEscaped(c) && c != '\n' && c != '\r' && c != '\t'
  {
  }

  lemma EscapeIs(c: char)
    ensures forall d | d in Escape(c) :: Bare(d)
    ensures Bare(c) && c != '"' && c != '\\' ==> Escape(c) == [c]
  {
    hide HexDigit, Bare;
    BareIs(c);
    BareLetters();
    if UnicodeEscaped(c) {
      var n := c as int;
      HexIsBare(n / 0x1000);
      HexIsBare(n / 0x100 % 0x10);
      HexIsBare(n / 0x10 % 0x10);
      HexIsBare(n % 0x10);
    }
  }

  /** The encoder leaves every character alone but the quote, the backslash, the control
      characters, the HTML-sensitive ones and the line separators, and these it hides. */
  lemma {:induction false} EscapeHides(s: string)
    ensures forall c | c in EscapeAll(s) :: Bare(c)
    ensures (forall c | c in s :: Bare(c) && c != '"' && c != '\\') ==> EscapeAll(s) == s
  {
    hide Escape, Bare;
    if s != "" {
      EscapeIs(s[0]);
      EscapeHides(s[1..]);
      assert s == [s[0]] + s[1..];
      if forall c | c in s :: Bare(c) && c != '"' && c != '\\' {
        assert s[0] in s && forall c | c in s[1..] :: c in s;
      }
    }
  }

  // ------------------------------------------------------------ reading

  datatype Piece = Piece(c: char, length: nat)

  function FourHex(r: string): Option<nat>
    requires |r| >= 4
  {
    match (HexValue(r[0]), HexValue(r[1]), HexValue(r[2]), HexValue(r[3]))
    case (Some(a), Some(b), Some(c), Some(d)) => Some(a * 0x1000 + b * 0x100 + c * 0x10 + d)
    case _ => None
  }

  /** The next character of a string body: not the closing quote, no bare control
      character. An escaped surrogate half is not part of this model. */
  function ReadChar(r: string): (p: Option<Piece>)
    ensures p.Some? ==> 0 < p.value.length <= |r|
  {
    if r == "" || r[0] == '"' || r[0] as int < 0x20 then None
    else if r[0] != '\\' then Some(Piece(r[0], 1))
    else if |r| < 2 then None
    else if r[1] == '"' || r[1] == '\\' || r[1] == '/' then Some(Piece(r[1], 2))
    else if r[1] == 'b' then Some(Piece(8 as char, 2))
    else if r[1] == 'f' then Some(Piece(12 as char, 2))
    else if r[1] == 'n' then Some(Piece('\n', 2))
    else if r[1] == 'r' then Some(Piece('\r', 2))
    else if r[1] == 't' then Some(Piece('\t', 2))
    else if r[1] == 'u' && |r| >= 6 then
      match FourHex(r[2..6])
      case None => None
      case Some(v) => if v < 0xd800 || 0xe000 <= v < 0x10000 then Some(Piece(v as char, 6)) else None
    else None
  }

  /** A string body up to its closing quote, and what follows the quote. */
  function Unquote(r: string): Option<(string, string)>
    decreases |r|
  {
    if r != "" && r[0] == '"' then Some(("", r[1..]))
    else
      match ReadChar(r)
      case None => None
      case Some(p) =>
        match Unquote(r[p.length..])
        case None => None
        case Some(more) => Some(([p.c] + more.0, more.1))
  }

  lemma HexRound(n: nat)
    requires n < 16
    ensures HexValue(HexDigit(n)) == Some(n)
  {
  }

  lemma Hex4Round(n: nat)
    requires n < 0x10000
    ensures FourHex(Hex4(n)) == Some(n)
  {
    hide HexDigit, HexValue;
    var a, b, c, d := n / 0x1000, n / 0x100 % 0x10, n / 0x10 % 0x10, n % 0x10;
    HexRound(a); HexRound(b); HexRound(c); HexRound(d);
    DigitsOf(n);
    var h := Hex4(n);
    assert h[0] == HexDigit(a) && h[1] == HexDigit(b) && h[2] == HexDigit(c) && h[3] == HexDigit(d);
  }

  lemma DigitsOf(n: nat)
    requires n < 0x10000
    ensures n == n / 0x1000 * 0x1000 + n / 0x100 % 0x10 * 0x100 + n / 0x10 % 0x10 * 0x10 + n % 0x10
  {
    var x, y := n / 0x10, n / 0x100;
    assert n == x * 0x10 + n % 0x10;
    assert x == y * 0x10 + x % 0x10;
    assert y == n / 0x1000 * 0x10 + y % 0x10;
  }

  lemma EscapeRead(c: char, rest: string)
    ensures ReadChar(Escape(c) + rest) == Some(Piece(c, |Escape(c)|))
  {
    hide Hex4, FourHex, HexValue;
    var r := Escape(c) + rest;
    if Escape(c) == [c] {
      assert r[0] == c;
    } else if UnicodeEscaped(c) && c != '"' && c != '\\' {
      Hex4Round(c as int);
      Hex4Length(c as int);
      assert r[0] == '\\' && r[1] == 'u' && r[2..6] == Hex4(c as int);
    } else {
      assert r[0] == '\\' && r[1] == Escape(c)[1];
    }
  }

  lemma Hex4Length(n: nat)
    requires n < 0x10000
    ensures |Hex4(n)| == 4
  {
  }

  /** Reading undoes quoting, whatever follows the closing quote. */
  lemma {:induction false} QuoteRoundTrip(s: string, rest: string)
    ensures Unquote(EscapeAll(s) + "\"" + rest) == Some((s, rest))
  {
    hide ReadChar, Escape;
    var r := EscapeAll(s) + "\"" + rest;
    if s == "" {
      assert r == "\"" + rest && r[1..] == rest;
    } else {
      QuoteRoundTrip(s[1..], rest);
      var tail := EscapeAll(s[1..]) + "\"" + rest;
      assert r == Escape(s[0]) + tail;
      EscapeRead(s[0], tail);
      EscapeNotQuote(s[0]);
      assert r[|Escape(s[0])|..] == tail;
      assert s == [s[0]] + s[1..];
    }
  }

  lemma EscapeNotQuote(c: char)
    ensures Escape(c) != "" && Escape(c)[0] != '"'
  {
  }

  lemma {:induction false} EscapeKeepsLines(s: string)
    ensures '\n' !in EscapeAll(s)
  {
    if s != "" {
      EscapeKeepsLines(s[1..]);
      EscapeOneLine(s[0]);
    }
  }

  lemma EscapeOneLine(c: char)
    ensures '\n' !in Escape(c)
  {
    hide HexDigit;
    if UnicodeEscaped(c) && c != '"' && c != '\\' {
      var n := c as int;
      HexOneLine(n / 0x1000); HexOneLine(n / 0x100 % 0x10); HexOneLine(n / 0x10 % 0x10); HexOneLine(n % 0x10);
    }
  }

  lemma HexOneLine(n: nat)
    requires n < 16
    ensures HexDigit(n) != '\n'
  {
  }
}
