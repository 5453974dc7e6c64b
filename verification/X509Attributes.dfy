// Which attributes of a name are canonicalized and to what, independently of the
// encoder (ca.go:258-273, 371-493).
module X509Attributes {
  import opened Order
  import opened Policy
  import opened Der
  import opened Utf8
  import opened CanonicalText
  import opened CanonicalWords
  import opened X509Name
  import opened X509Canonical

  // ---------------------------------------------------- the text of a string

  /** The code points that data declares in big-endian units of one, two or four bytes. */
  ghost predicate CodePoints(data: Bytes, size: Size, codes: seq<int>) {
    |data| == size * |codes| &&
    forall k | 0 <= k < |codes| :: codes[k] == CodePoint(data, size, k)
  }

  function CodePoint(data: Bytes, size: Size, k: nat): int
    requires |data| >= size * (k + 1)
  {
    if size == 1 then data[k]
    else if size == 2 then (data[2 * k] as int) * 0x100 + data[2 * k + 1]
    else
      (data[4 * k] as int) * 0x1000000 + (data[4 * k + 1] as int) * 0x10000 + (data[4 * k + 2] as int) * 0x100 +
      data[4 * k + 3]
  }

  /** The UTF-8 text of a string attribute: its bytes as they are, or for T61String (Latin-1),
      BMPString and UniversalString well-formed UTF-8 of the declared code points. */
  ghost predicate TextOf(a: Attr, u: Bytes) {
    if a.tag in {0x14, 0x1e, 0x1c} then
      exists codes :: CodePoints(a.data, if a.tag == 0x14 then 1 else if a.tag == 0x1e then 2 else 4, codes) &&
                      Decode(u) == Some(codes)
    else u == a.data
  }

  lemma Digits2(a: int, p: int)
    requires 2 <= a < 0x20 && 0 <= p < 0x40
    ensures var c := a * 0x40 + p; 0x80 <= c < 0x800 && c / 0x40 == a && c % 0x40 == p
  {
  }

  lemma Digits3(a: int, p: int, q: int)
    requires 0 <= a < 0x10 && 0 <= p < 0x40 && 0 <= q < 0x40 && (a == 0 ==> p >= 0x20)
    ensures var c := a * 0x1000 + p * 0x40 + q;
            0x800 <= c < 0x10000 && c / 0x1000 == a && c / 0x40 % 0x40 == p && c % 0x40 == q
  {
    var c := a * 0x1000 + p * 0x40 + q;
    assert c == (a * 0x40 + p) * 0x40 + q && c / 0x40 == a * 0x40 + p;
  }

  lemma Digits4(a: int, p: int, q: int, r: int)
    requires 0 <= a < 5 && 0 <= p < 0x40 && 0 <= q < 0x40 && 0 <= r < 0x40
    requires (a == 0 ==> p >= 0x10) && (a == 4 ==> p < 0x10)
    ensures var c := a * 0x40000 + p * 0x1000 + q * 0x40 + r;
            && 0x10000 <= c <= 0x10ffff && c / 0x40000 == a && c / 0x1000 % 0x40 == p
            && c / 0x40 % 0x40 == q && c % 0x40 == r
  {
    var c := a * 0x40000 + p * 0x1000 + q * 0x40 + r;
    assert c == (a * 0x1000 + p * 0x40 + q) * 0x40 + r && c / 0x40 == a * 0x1000 + p * 0x40 + q;
    assert c / 0x40 == (a * 0x40 + p) * 0x40 + q;
    assert c / 0x1000 == a * 0x40 + p;
  }

  lemma DecodedOctets(s: Bytes)
    requires DecodeFirst(s).Some?
    ensures var d := DecodeFirst(s).value;
            Scalar(d.code) && d.length <= |s| && s[..d.length] == Octets(d.code)
  {
    hide Octets;
    var d := DecodeFirst(s).value;
    if d.length == 1 { OneOctet(s); }
    else if d.length == 2 { TwoOctets(s); }
    else if d.length == 3 { ThreeOctets(s); }
    else { FourOctets(s); }
  }

  lemma OneOctet(s: Bytes)
    requires s != [] && s[0] < 0x80
    ensures s[..1] == Octets(s[0])
  {
  }

  lemma TwoOctets(s: Bytes)
    requires |s| >= 2 && 0xc2 <= s[0] <= 0xdf && Continuation(s[1])
    ensures s[..2] == Octets((s[0] as int - 0xc0) * 0x40 + Payload(s[1]))
  {
    Digits2(s[0] as int - 0xc0, Payload(s[1]));
  }

  lemma ThreeOctets(s: Bytes)
    requires |s| >= 3 && 0xe0 <= s[0] <= 0xef && Continuation(s[1]) && Continuation(s[2])
    requires (s[0] == 0xe0 ==> s[1] >= 0xa0) && (s[0] == 0xed ==> s[1] <= 0x9f)
    ensures var c := (s[0] as int - 0xe0) * 0x1000 + Payload(s[1]) * 0x40 + Payload(s[2]);
            Scalar(c) && s[..3] == Octets(c)
  {
    Digits3(s[0] as int - 0xe0, Payload(s[1]), Payload(s[2]));
  }

  lemma FourOctets(s: Bytes)
    requires |s| >= 4 && 0xf0 <= s[0] <= 0xf4 && Continuation(s[1]) && Continuation(s[2]) && Continuation(s[3])
    requires (s[0] == 0xf0 ==> s[1] >= 0x90) && (s[0] == 0xf4 ==> s[1] <= 0x8f)
    ensures var c := (s[0] as int - 0xf0) * 0x40000 + Payload(s[1]) * 0x1000 + Payload(s[2]) * 0x40 + Payload(s[3]);
            Scalar(c) && s[..4] == Octets(c)
  {
    Digits4(s[0] as int - 0xf0, Payload(s[1]), Payload(s[2]), Payload(s[3]));
  }

  /** Well-formed UTF-8 is the encoding of what it decodes to. */
  lemma {:induction false} DecodeOnce(s: Bytes)
    requires Decode(s).Some?
    ensures AllScalar(Decode(s).value) && s == Encode(Decode(s).value)
    decreases |s|
  {
    hide DecodeFirst, Octets;
    if s != [] {
      var d := DecodeFirst(s).value;
      DecodedOctets(s);
      DecodeOnce(s[d.length..]);
      var codes := Decode(s).value;
      assert codes[1..] == Decode(s[d.length..]).value;
      EncodeFirst(codes);
      assert s == s[..d.length] + s[d.length..];
    }
  }

  lemma UnitIs(d: Bytes, size: Size)
    requires |d| == size
    ensures BigEndian(d) == CodePoint(d, size, 0)
  {
    BigEndianUnits(d);
  }

  /** Declared code points are exactly the converter's units. */
  lemma {:induction false} UnitsAre(data: Bytes, size: Size, codes: seq<int>)
    ensures CodePoints(data, size, codes) <==> Whole(|data|, size) && Units(data, size) == codes
    decreases |data|
  {
    hide BigEndian, CodePoint, Whole;
    if data == [] {
      WholeNothing(size);
    } else if Whole(|data|, size) {
      WholeDown(|data|, size);
      var n := |data| - size;
      var u := Units(data, size);
      UnitsAre(data[..n], size, u[..|u| - 1]);
      assert u == Units(data[..n], size) + [BigEndian(data[n..])];
      assert u[..|u| - 1] == Units(data[..n], size);
      UnitIs(data[n..], size);
      CodePointsStep(data, size, u);
      if CodePoints(data, size, codes) { CodePointsOnce(data, size, codes, u); }
    } else if CodePoints(data, size, codes) {
      MultipleIsWhole(size, |codes|);
    }
  }

  lemma WholeNothing(size: Size)
    ensures Whole(0, size)
  {
  }

  lemma MultipleIsWhole(size: Size, n: nat)
    ensures Whole(size * n, size)
  {
    if size == 2 { assert size * n == 2 * n; }
    if size == 4 { assert size * n == 4 * n; }
  }

  lemma CodePointsStep(data: Bytes, size: Size, u: seq<int>)
    requires |data| >= size && u != [] && CodePoints(data[..|data| - size], size, u[..|u| - 1])
    requires u[|u| - 1] == CodePoint(data[|data| - size..], size, 0)
    ensures CodePoints(data, size, u)
  {
    hide CodePoint;
    var n, m := |data| - size, |u| - 1;
    Scaled(size, m);
    forall k | 0 <= k < |u| ensures size * (k + 1) <= |data| && u[k] == CodePoint(data, size, k) {
      ScaledBound(size, k, m);
      if k < m {
        SameUnit(data, size, k, n);
      } else {
        LastUnit(data, size, k);
      }
    }
  }

  lemma Scaled(size: Size, m: nat)
    ensures size * m + size == size * (m + 1)
  {
  }

  lemma ScaledBound(size: Size, k: nat, m: nat)
    ensures k <= m ==> size * (k + 1) <= size * (m + 1)
    ensures k < m ==> size * (k + 1) <= size * m
  {
  }

  lemma SameUnit(data: Bytes, size: Size, k: nat, n: nat)
    requires n <= |data| && size * (k + 1) <= n
    ensures CodePoint(data[..n], size, k) == CodePoint(data, size, k)
  {
  }

  lemma LastUnit(data: Bytes, size: Size, k: nat)
    requires |data| == size * (k + 1)
    ensures |data| - size >= 0 && CodePoint(data[|data| - size..], size, 0) == CodePoint(data, size, k)
  {
  }

  lemma CodePointsOnce(data: Bytes, size: Size, a: seq<int>, b: seq<int>)
    requires CodePoints(data, size, a) && CodePoints(data, size, b)
    ensures a == b
  {
    hide CodePoint;
    if |a| < |b| { ScaledBound(size, |a|, |b|); Scaled(size, |a|); }
    if |b| < |a| { ScaledBound(size, |b|, |a|); Scaled(size, |b|); }
  }

  /** The conversion yields exactly the text. */
  lemma TextIff(a: Attr, u: Bytes)
    ensures TextOf(a, u) <==> Converted(a.data, a.tag) == Some(u)
  {
    hide Decode, Encode, Units, CodePoints;
    if a.tag in {0x14, 0x1e, 0x1c} {
      var size: Size := UnitSize(a.tag);
      if codes :| CodePoints(a.data, size, codes) && Decode(u) == Some(codes) {
        UnitsAre(a.data, size, codes);
        DecodeOnce(u);
      }
      if Converted(a.data, a.tag) == Some(u) {
        UnitsAre(a.data, size, Units(a.data, size));
        EncodeDecodes(Units(a.data, size));
      }
    }
  }

  // ------------------------------------------------ canonical attributes

  /** Attribute c is the canonical form of a: for the seven string types a UTF8String of the
      words of its text in small letters, with single spaces; any other attribute unchanged. */
  ghost predicate Canonicalizes(a: Attr, c: Attr) {
    if a.tag in {0x0c, 0x13, 0x16, 0x14, 0x1e, 0x1c, 0x1a} then
      c.oid == a.oid && c.tag == 0x0c && exists u, ws :: TextOf(a, u) && Holds(u, ws) && Spells(c.data, ws)
    else c == a
  }

  lemma CanonicalAttrIff(a: Attr, c: Attr)
    ensures Canonicalizes(a, c) <==> CanonicalAttr(a) == Some(c)
  {
    hide TextOf, Converted, Holds, Spells, Canonicalized;
    if NeedsCanon(a.tag) {
      if u, ws :| TextOf(a, u) && Holds(u, ws) && Spells(c.data, ws) {
        TextIff(a, u);
        CanonicalizedSpells(u, ws);
        SpellsOnce(c.data, Canonicalized(u), ws);
      }
      if CanonicalAttr(a) == Some(c) {
        var u := Converted(a.data, a.tag).value;
        TextIff(a, u);
        var ws := HoldsExists(u);
        CanonicalizedSpells(u, ws);
      }
    }
  }

  /** The canonical name, wrapped in a SEQUENCE, parses to the canonical forms of the
      attributes of every RDN, in some order. */
  lemma NameHoldsCanonicalAttributes(rdns: seq<Rdn>) returns (parsed: seq<Rdn>, originals: seq<Rdn>)
    requires NameDer(rdns).Some? && |NameDer(rdns).value| < INT_LIMIT
    ensures var der := NameDer(rdns).value; ReadName([0x30] + LengthOctets(|der|) + der) == Some(parsed)
    ensures |parsed| == |originals| == |rdns|
    ensures forall i, j, k | 0 <= i < |rdns| && 0 <= j < k < |parsed[i]| ::
              !LexLess(AttrDer(parsed[i][k]), AttrDer(parsed[i][j]))
    ensures forall i | 0 <= i < |rdns| ::
              && |originals[i]| == |rdns[i]| && multiset(parsed[i]) == multiset(originals[i])
              && forall j | 0 <= j < |rdns[i]| :: Canonicalizes(rdns[i][j], originals[i][j])
  {
    hide ReadRdns, ReadItem, NameDer, RdnDer, AttrDers, CanonicalAttr, Canonicalizes, LengthOctets, LexLess, AttrDer;
    parsed, originals := RdnsBack(rdns);
    ReadTlvAlone(SEQUENCE, NameDer(rdns).value);
    forall i, j, k | 0 <= i < |rdns| && 0 <= j < k < |parsed[i]|
      ensures !LexLess(AttrDer(parsed[i][k]), AttrDer(parsed[i][j]))
    {
      var ders := AttrDers(rdns[i]).value;
      SortByCorrect(DerKey, ders);
      assert Ders(parsed[i]) == SortBy(DerKey, ders) && |Ders(parsed[i])| == |parsed[i]|;
      assert !LexLess(DerKey(Ders(parsed[i])[k]), DerKey(Ders(parsed[i])[j]));
    }
    forall i, j | 0 <= i < |rdns| && 0 <= j < |rdns[i]|
      ensures |originals[i]| == |rdns[i]| && Canonicalizes(rdns[i][j], originals[i][j])
    {
      assert Canonicals(rdns[i], parsed[i], originals[i]);
      CanonicalAttrIff(rdns[i][j], originals[i][j]);
    }
    assert forall i | 0 <= i < |rdns| :: Canonicals(rdns[i], parsed[i], originals[i]);
  }

  /** The octets of lengths, attributes and RDNs by X.690 sections 8.1.3, 8.9, 8.12 and 8.19:
      tags 0x30 for SEQUENCE, 0x31 for SET, 0x06 for an object identifier. */
  lemma EncodingShape(a: Attr, rdn: Rdn, n: nat)
    requires n < INT_LIMIT
    ensures n < 0x80 ==> LengthOctets(n) == [n]
    ensures n >= 0x80 ==>
              var o := LengthOctets(n);
              2 <= |o| <= 9 && o[0] == 0x80 + |o| - 1 && o[1] != 0 && BigEndian(o[1..]) == n
    ensures var c := [0x06] + LengthOctets(|a.oid|) + a.oid + ([a.tag] + LengthOctets(|a.data|) + a.data);
            AttrDer(a) == [0x30] + LengthOctets(|c|) + c
    ensures RdnDer(rdn).Some? ==> exists inner: Bytes :: RdnDer(rdn).value == [0x31] + LengthOctets(|inner|) + inner
  {
    hide LengthOctets, AttrDers;
    LengthShape(n);
    if RdnDer(rdn).Some? {
      var inner := Concat(SortBy(DerKey, AttrDers(rdn).value));
      assert RdnDer(rdn).value == [0x31] + LengthOctets(|inner|) + inner;
    }
  }

  lemma LengthShape(n: nat)
    requires n < INT_LIMIT
    ensures n < 0x80 ==> LengthOctets(n) == [n]
    ensures n >= 0x80 ==>
              var o := LengthOctets(n);
              2 <= |o| <= 9 && o[0] == 0x80 + |o| - 1 && o[1] != 0 && BigEndian(o[1..]) == n
  {
    if n >= 0x80 {
      DigitsValue(n);
      DigitsLead(n);
      PowersOfBytes();
      DigitsBound(n, 8);
    }
  }

  lemma {:induction false} DigitsLead(n: nat)
    requires n > 0
    ensures Digits(n) != [] && Digits(n)[0] != 0
  {
    if n >= 256 { DigitsLead(n / 256); }
  }

  /** Equal attributes, or string attributes of any of the seven types whose texts have the
      same words up to ASCII case. */
  ghost predicate SameAttribute(a: Attr, b: Attr) {
    || a == b
    || (a.oid == b.oid && a.tag in {0x0c, 0x13, 0x16, 0x14, 0x1e, 0x1c, 0x1a} &&
        b.tag in {0x0c, 0x13, 0x16, 0x14, 0x1e, 0x1c, 0x1a} &&
        exists u, ws, v, vs :: TextOf(a, u) && Holds(u, ws) && TextOf(b, v) && Holds(v, vs) && SameWords(ws, vs))
  }

  /** Convertible attributes have one canonical form exactly if they are the same in that sense. */
  lemma CanonicalAttrSameIff(a: Attr, b: Attr)
    requires CanonicalAttr(a).Some? && CanonicalAttr(b).Some?
    ensures CanonicalAttr(a) == CanonicalAttr(b) <==> SameAttribute(a, b)
  {
    hide TextOf, Converted, Holds, Canonicalized, SameWords;
    if NeedsCanon(a.tag) && NeedsCanon(b.tag) {
      var u, v := Converted(a.data, a.tag).value, Converted(b.data, b.tag).value;
      TextIff(a, u);
      TextIff(b, v);
      forall x, ws, y, vs | TextOf(a, x) && Holds(x, ws) && TextOf(b, y) && Holds(y, vs)
        ensures x == u && y == v && (Canonicalized(u) == Canonicalized(v) <==> SameWords(ws, vs))
      {
        TextIff(a, x);
        TextIff(b, y);
        CanonicalizedEqualIff(x, y, ws, vs);
      }
      var ws := HoldsExists(u);
      var vs := HoldsExists(v);
    }
  }

  /** Names whose attributes are the same one by one have one canonical encoding. */
  lemma SameAttributesSameName(a: seq<Rdn>, b: seq<Rdn>)
    requires NameDer(a).Some? && NameDer(b).Some? && |a| == |b|
    requires forall i | 0 <= i < |a| ::
             |a[i]| == |b[i]| && forall j | 0 <= j < |a[i]| :: SameAttribute(a[i][j], b[i][j])
    ensures NameDer(a) == NameDer(b)
  {
    hide NameDer, RdnDer, SameAttribute, AttrDers;
    forall i | 0 <= i < |a| ensures RdnDer(a[i]) == RdnDer(b[i]) {
      NameParts(a, i);
      NameParts(b, i);
      RdnExistsIff(a[i]);
      RdnExistsIff(b[i]);
      SameRdn(a[i], b[i]);
    }
    SameRdnsSameName(a, b);
  }

  lemma {:induction false} NameParts(a: seq<Rdn>, i: nat)
    requires NameDer(a).Some? && i < |a|
    ensures RdnDer(a[i]).Some?
    decreases |a|
  {
    hide RdnDer;
    if i < |a| - 1 { NameParts(a[..|a| - 1], i); }
  }

  lemma {:induction false} SameRdn(a: Rdn, b: Rdn)
    requires AttrDers(a).Some? && AttrDers(b).Some?
    requires |a| == |b| && forall j | 0 <= j < |a| :: SameAttribute(a[j], b[j])
    ensures AttrDers(a) == AttrDers(b)
    ensures RdnDer(a) == RdnDer(b)
  {
    hide SameAttribute, CanonicalAttr, AttrDer;
    if a != [] {
      var n := |a| - 1;
      SameRdn(a[..n], b[..n]);
      CanonicalAttrSameIff(a[n], b[n]);
    }
  }

  /** A name has a canonical encoding exactly if every attribute of the seven string types has a text. */
  lemma NameHasTextsIff(rdns: seq<Rdn>)
    ensures NameDer(rdns).Some? <==>
            forall i, j | 0 <= i < |rdns| && 0 <= j < |rdns[i]| &&
                          rdns[i][j].tag in {0x0c, 0x13, 0x16, 0x14, 0x1e, 0x1c, 0x1a} :: HasText(rdns[i][j])
  {
    hide NameDer, HasText, Converted;
    CanonicalNameExistsIff(rdns);
    forall i, j | 0 <= i < |rdns| && 0 <= j < |rdns[i]|
      ensures HasText(rdns[i][j]) <==> Converted(rdns[i][j].data, rdns[i][j].tag).Some?
    {
      HasTextIff(rdns[i][j]);
    }
  }

  ghost predicate HasText(a: Attr) { exists u :: TextOf(a, u) }

  lemma HasTextIff(a: Attr)
    ensures HasText(a) <==> Converted(a.data, a.tag).Some?
  {
    hide TextOf, Converted;
    if u :| TextOf(a, u) { TextIff(a, u); }
    if Converted(a.data, a.tag).Some? { TextIff(a, Converted(a.data, a.tag).value); }
  }
}
