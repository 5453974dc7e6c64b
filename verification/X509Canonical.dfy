// X.509 name canonicalization is a projection: the canonical name parses back
// and is its own canonical name.
module X509Canonical {
  import opened Order
  import opened Policy
  import opened Der
  import opened Utf8
  import opened CanonicalText
  import opened X509Name

  lemma ReadTlv(tag: Byte, content: Bytes, rest: Bytes)
    requires |content| < INT_LIMIT
    ensures ReadItem(Tlv(tag, content) + rest) == Some(Item(tag, content, rest))
  {
    hide LengthOctets, ReadLength;
    var o := LengthOctets(|content|);
    var data := Tlv(tag, content) + rest;
    assert data == [tag] + o + (content + rest);
    LengthRoundTrip([tag], |content|, content + rest);
    assert data[1 + |o|..1 + |o| + |content|] == content;
    assert data[1 + |o| + |content|..] == rest;
  }

  lemma ReadTlvAlone(tag: Byte, content: Bytes)
    requires |content| < INT_LIMIT
    ensures ReadItem(Tlv(tag, content)) == Some(Item(tag, content, []))
  {
    hide Tlv, ReadItem;
    ReadTlv(tag, content, []);
    assert Tlv(tag, content) + [] == Tlv(tag, content);
  }

  lemma TlvSize(tag: Byte, content: Bytes)
    ensures |Tlv(tag, content)| > |content|
  {
  }

  lemma ReadAttrBack(a: Attr)
    requires |AttrContent(a)| < INT_LIMIT
    ensures ReadAttr(AttrContent(a)) == Some(a)
  {
    hide Tlv, ReadItem;
    TlvSize(OID, a.oid);
    TlvSize(a.tag, a.data);
    ReadTlv(OID, a.oid, Tlv(a.tag, a.data));
    ReadTlvAlone(a.tag, a.data);
  }

  // ------------------------------------------------- lists of encodings

  ghost function Ders(attrs: Rdn): seq<Bytes> { seq(|attrs|, i requires 0 <= i < |attrs| => AttrDer(attrs[i])) }

  lemma {:induction false} ConcatFirst(parts: seq<Bytes>)
    requires parts != []
    ensures Concat(parts) == parts[0] + Concat(parts[1..])
  {
    var n := |parts| - 1;
    if n > 0 {
      ConcatFirst(parts[..n]);
      assert parts[..n][1..] == parts[1..][..n - 1];
      assert Concat(parts[1..]) == Concat(parts[1..][..n - 1]) + parts[n];
      assert parts[0] + Concat(parts[1..]) == parts[0] + Concat(parts[1..][..n - 1]) + parts[n];
    } else {
      assert Concat(parts[..0]) == [] && Concat(parts[1..]) == [];
    }
  }

  lemma {:induction false} ReadAttrsBack(attrs: Rdn)
    requires |Concat(Ders(attrs))| < INT_LIMIT
    ensures ReadAttrs(Concat(Ders(attrs))) == Some(attrs)
  {
    hide Tlv, ReadItem, ReadAttr, AttrContent;
    if attrs != [] {
      var ders, rest := Ders(attrs), Ders(attrs[1..]);
      assert ders[1..] == rest;
      ConcatFirst(ders);
      var content := AttrContent(attrs[0]);
      assert ders[0] == Tlv(SEQUENCE, content);
      TlvSize(SEQUENCE, content);
      ReadTlv(SEQUENCE, content, Concat(rest));
      ReadAttrBack(attrs[0]);
      ReadAttrsBack(attrs[1..]);
      assert attrs == [attrs[0]] + attrs[1..];
    }
  }

  // -------------------------------------------------- canonical attributes

  ghost predicate IsCanonical(a: Attr) { CanonicalAttr(a) == Some(a) }

  ghost predicate AllCanonical(attrs: Rdn) { forall i | 0 <= i < |attrs| :: IsCanonical(attrs[i]) }

  /** Canonicalizing an attribute twice is canonicalizing it once. */
  lemma CanonicalAttrIdempotent(a: Attr)
    requires CanonicalAttr(a).Some?
    ensures IsCanonical(CanonicalAttr(a).value)
  {
    hide CanonicalValue;
    if NeedsCanon(a.tag) { CanonicalValueIdempotent(a.data, a.tag); }
  }

  lemma {:induction false} AttrDersOfCanonical(attrs: Rdn)
    requires AllCanonical(attrs)
    ensures AttrDers(attrs) == Some(Ders(attrs))
  {
    hide AttrDer, CanonicalAttr;
    if attrs != [] {
      var n := |attrs| - 1;
      AttrDersOfCanonical(attrs[..n]);
      assert IsCanonical(attrs[n]);
      assert AttrDers(attrs) == Some(Ders(attrs[..n]) + [AttrDer(attrs[n])]);
      assert Ders(attrs) == Ders(attrs[..n]) + [AttrDer(attrs[n])];
    } else {
      assert Ders(attrs) == [];
    }
  }

  /** The attributes a canonicalized RDN consists of, in their original order. */
  lemma {:induction false} CanonicalAttrs(rdn: Rdn) returns (attrs: Rdn)
    requires AttrDers(rdn).Some?
    ensures AllCanonical(attrs) && AttrDers(rdn) == Some(Ders(attrs))
    ensures |attrs| == |rdn| && forall i | 0 <= i < |rdn| :: CanonicalAttr(rdn[i]) == Some(attrs[i])
  {
    hide AttrDer, CanonicalAttr;
    attrs := [];
    assert Ders(attrs) == [];
    if rdn != [] {
      var n := |rdn| - 1;
      var before := CanonicalAttrs(rdn[..n]);
      CanonicalAttrIdempotent(rdn[n]);
      var a := CanonicalAttr(rdn[n]).value;
      attrs := before + [a];
      assert Ders(attrs) == Ders(before) + [AttrDer(a)];
    }
  }

  ghost function AttrKey(a: Attr): seq<int> { AttrDer(a) }

  lemma {:induction false} InsertDers(a: Attr, attrs: Rdn)
    ensures Ders(Insert(AttrKey, a, attrs)) == Insert(DerKey, AttrDer(a), Ders(attrs))
  {
    hide AttrDer, LexLess;
    if attrs != [] {
      InsertDers(a, attrs[1..]);
      assert Ders(attrs)[1..] == Ders(attrs[1..]);
      assert Ders([attrs[0]] + Insert(AttrKey, a, attrs[1..])) ==
             [AttrDer(attrs[0])] + Ders(Insert(AttrKey, a, attrs[1..]));
      assert Ders([a] + attrs) == [AttrDer(a)] + Ders(attrs);
    } else {
      assert Ders(attrs) == [] && Ders([a]) == [AttrDer(a)];
    }
  }

  /** Sorting attributes by their encodings sorts the encodings. */
  lemma {:induction false} SortDers(attrs: Rdn)
    ensures Ders(SortBy(AttrKey, attrs)) == SortBy(DerKey, Ders(attrs))
  {
    hide AttrDer, Insert;
    if attrs != [] {
      SortDers(attrs[1..]);
      assert Ders(attrs)[1..] == Ders(attrs[1..]);
      InsertDers(attrs[0], SortBy(AttrKey, attrs[1..]));
    } else {
      assert Ders(attrs) == [];
    }
  }

  lemma SortedDers(ders: seq<Bytes>)
    ensures SortBy(DerKey, SortBy(DerKey, ders)) == SortBy(DerKey, ders)
    ensures forall d :: d in SortBy(DerKey, ders) <==> d in ders
  {
    SortByCorrect(DerKey, ders);
    var s := SortBy(DerKey, ders);
    SortDetermined(DerKey, s, s);
  }

  /** The attributes attrs are, in some order, the canonicalized attributes of rdn, which
      `original` lists in the order of rdn. */
  ghost predicate Canonicals(rdn: Rdn, attrs: Rdn, original: Rdn) {
    && |original| == |rdn| && multiset(attrs) == multiset(original)
    && forall i | 0 <= i < |rdn| :: CanonicalAttr(rdn[i]) == Some(original[i])
  }

  /** The SET of a canonicalized RDN parses to canonical attributes in DER order. */
  lemma RdnBack(rdn: Rdn) returns (attrs: Rdn, inner: Bytes, original: Rdn)
    requires RdnDer(rdn).Some? && |RdnDer(rdn).value| < INT_LIMIT
    ensures RdnDer(rdn) == Some(Tlv(SET, inner)) && |inner| < INT_LIMIT
    ensures ReadAttrs(inner) == Some(attrs) && AllCanonical(attrs) && RdnDer(attrs) == RdnDer(rdn)
    ensures AttrDers(rdn).Some? && Ders(attrs) == SortBy(DerKey, AttrDers(rdn).value)
    ensures Canonicals(rdn, attrs, original)
  {
    hide AttrDer, CanonicalAttr, Tlv, ReadAttrs, SortBy;
    original := CanonicalAttrs(rdn);
    var ders := Ders(original);
    SortedDers(ders);
    var sorted := SortBy(DerKey, ders);
    SortDers(original);
    attrs := SortBy(AttrKey, original);
    SortByCorrect(AttrKey, original);
    forall i | 0 <= i < |attrs| ensures IsCanonical(attrs[i]) { assert attrs[i] in original; }
    AttrDersOfCanonical(attrs);
    inner := Concat(sorted);
    TlvSize(SET, inner);
    ReadAttrsBack(attrs);
  }

  // ------------------------------------------------------------ whole names

  lemma {:induction false} NameDerFirst(rdns: seq<Rdn>)
    requires rdns != []
    ensures NameDer(rdns) == match (RdnDer(rdns[0]), NameDer(rdns[1..]))
                             case (Some(first), Some(rest)) => Some(first + rest)
                             case _ => None
  {
    hide RdnDer;
    var n := |rdns| - 1;
    if n > 0 {
      NameDerFirst(rdns[..n]);
      assert rdns[..n][1..] == rdns[1..][..n - 1];
      assert rdns[1..][|rdns[1..]| - 1] == rdns[n];
      if RdnDer(rdns[0]).Some? && NameDer(rdns[1..][..n - 1]).Some? && RdnDer(rdns[n]).Some? {
        var a, b, c := RdnDer(rdns[0]).value, NameDer(rdns[1..][..n - 1]).value, RdnDer(rdns[n]).value;
        assert (a + b) + c == a + (b + c);
      }
    } else {
      assert NameDer(rdns[..0]) == Some([]) && NameDer(rdns[1..]) == Some([]);
      if RdnDer(rdns[0]).Some? { assert [] + RdnDer(rdns[0]).value == RdnDer(rdns[0]).value + []; }
    }
  }

  /** The canonical encoding parses to a name with that very encoding. */
  lemma {:induction false} RdnsBack(rdns: seq<Rdn>) returns (parsed: seq<Rdn>, originals: seq<Rdn>)
    requires NameDer(rdns).Some? && |NameDer(rdns).value| < INT_LIMIT
    ensures ReadRdns(NameDer(rdns).value) == Some(parsed) && NameDer(parsed) == NameDer(rdns)
    ensures |parsed| == |originals| == |rdns|
    ensures forall i | 0 <= i < |rdns| :: Canonicals(rdns[i], parsed[i], originals[i])
    ensures forall i | 0 <= i < |rdns| :: RdnDer(parsed[i]) == RdnDer(rdns[i]) && RdnDer(rdns[i]).Some? &&
                                          AttrDers(rdns[i]).Some? &&
                                              Ders(parsed[i]) == SortBy(DerKey, AttrDers(rdns[i]).value)
  {
    hide Canonicals, RdnDer, ReadAttrs, ReadItem, Tlv, AttrDers;
    parsed, originals := [], [];
    if rdns != [] {
      NameDerFirst(rdns);
      var first, rest := RdnDer(rdns[0]).value, NameDer(rdns[1..]).value;
      var more, others := RdnsBack(rdns[1..]);
      var attrs, inner, original := RdnBack(rdns[0]);
      parsed, originals := [attrs] + more, [original] + others;
      ReadTlv(SET, inner, rest);
      TlvSize(SET, inner);
      NameDerFirst(parsed);
      assert parsed[1..] == more;
      forall i | 0 <= i < |rdns|
        ensures RdnDer(parsed[i]) == RdnDer(rdns[i]) && RdnDer(rdns[i]).Some?
        ensures AttrDers(rdns[i]).Some? && Ders(parsed[i]) == SortBy(DerKey, AttrDers(rdns[i]).value)
        ensures Canonicals(rdns[i], parsed[i], originals[i])
      {
        if i > 0 { assert parsed[i] == more[i - 1] && originals[i] == others[i - 1] && rdns[i] == rdns[1..][i - 1]; }
      }
    }
  }

  /** Wrapping the canonical encoding in a SEQUENCE, parsing it and building it
      again gives the same bytes. */
  lemma CanonicalNameIsProjection(rdns: seq<Rdn>)
    requires NameDer(rdns).Some? && |NameDer(rdns).value| < INT_LIMIT
    ensures var der := NameDer(rdns).value;
            var parsed := ReadName(Tlv(SEQUENCE, der));
            parsed.Some? && NameDer(parsed.value) == Some(der)
  {
    hide ReadRdns, ReadItem, Tlv, NameDer;
    var parsed, originals := RdnsBack(rdns);
    ReadTlvAlone(SEQUENCE, NameDer(rdns).value);
  }

  /** Two names have the same canonical encoding exactly when they have the same
      number of RDNs and each pair of RDNs the same canonicalized attributes,
      in whatever order (X.690 section 11.6). */
  lemma SameCanonicalNameIff(a: seq<Rdn>, b: seq<Rdn>)
    requires NameDer(a).Some? && NameDer(b).Some? && |NameDer(a).value| < INT_LIMIT && |NameDer(b).value| < INT_LIMIT
    ensures NameDer(a) == NameDer(b) <==>
            |a| == |b| && forall i | 0 <= i < |a| ::
              AttrDers(a[i]).Some? && AttrDers(b[i]).Some? &&
                  multiset(AttrDers(a[i]).value) == multiset(AttrDers(b[i]).value)
  {
    hide ReadRdns, AttrDers, NameDer, RdnDer, Ders;
    var x, u := RdnsBack(a);
    var y, v := RdnsBack(b);
    if NameDer(a) == NameDer(b) {
      assert x == y;
      forall i | 0 <= i < |a| ensures multiset(AttrDers(a[i]).value) == multiset(AttrDers(b[i]).value) {
        SortByCorrect(DerKey, AttrDers(a[i]).value);
        SortByCorrect(DerKey, AttrDers(b[i]).value);
        assert multiset(Ders(x[i])) == multiset(AttrDers(a[i]).value);
      }
    } else if |a| == |b| && forall i | 0 <= i < |a| ::
        multiset(AttrDers(a[i]).value) == multiset(AttrDers(b[i]).value) {
      forall i | 0 <= i < |a| ensures RdnDer(a[i]) == RdnDer(b[i]) { SameMultisetSameRdn(a[i], b[i]); }
      SameRdnsSameName(a, b);
    }
  }

  lemma SameMultisetSameRdn(a: Rdn, b: Rdn)
    requires AttrDers(a).Some? && AttrDers(b).Some? && multiset(AttrDers(a).value) == multiset(AttrDers(b).value)
    ensures RdnDer(a) == RdnDer(b)
  {
    hide AttrDers;
    SortByCorrect(DerKey, AttrDers(a).value);
    SortDetermined(DerKey, AttrDers(b).value, SortBy(DerKey, AttrDers(a).value));
  }

  lemma {:induction false} SameRdnsSameName(a: seq<Rdn>, b: seq<Rdn>)
    requires |a| == |b| && forall i | 0 <= i < |a| :: RdnDer(a[i]) == RdnDer(b[i])
    ensures NameDer(a) == NameDer(b)
  {
    hide RdnDer;
    if a != [] { SameRdnsSameName(a[..|a| - 1], b[..|b| - 1]); }
  }

  /** The canonical name exists exactly when every string attribute converts. */
  lemma {:induction false} CanonicalNameExistsIff(rdns: seq<Rdn>)
    ensures NameDer(rdns).Some? <==>
            forall i, j | 0 <= i < |rdns| && 0 <= j < |rdns[i]| ::
              NeedsCanon(rdns[i][j].tag) ==> Converted(rdns[i][j].data, rdns[i][j].tag).Some?
  {
    hide Converted, RdnDer;
    if rdns != [] {
      var n := |rdns| - 1;
      CanonicalNameExistsIff(rdns[..n]);
      RdnExistsIff(rdns[n]);
      assert forall i | 0 <= i < n :: rdns[..n][i] == rdns[i];
    }
  }

  lemma {:induction false} RdnExistsIff(rdn: Rdn)
    ensures AttrDers(rdn).Some? <==>
            forall j | 0 <= j < |rdn| :: NeedsCanon(rdn[j].tag) ==> Converted(rdn[j].data, rdn[j].tag).Some?
    ensures RdnDer(rdn).Some? <==> AttrDers(rdn).Some?
  {
    hide Converted;
    if rdn != [] {
      var n := |rdn| - 1;
      RdnExistsIff(rdn[..n]);
      assert forall j | 0 <= j < n :: rdn[..n][j] == rdn[j];
    }
  }

  // ------------------------------------------------- any encoded name

  /** The encoding of a name as it stands, without its outer header. */
  ghost function Encoded(rdns: seq<Rdn>): Bytes {
    if rdns == [] then [] else Tlv(SET, Concat(Ders(rdns[0]))) + Encoded(rdns[1..])
  }

  lemma {:induction false} ReadEncoded(rdns: seq<Rdn>)
    requires |Encoded(rdns)| < INT_LIMIT
    ensures ReadRdns(Encoded(rdns)) == Some(rdns)
  {
    hide Tlv, ReadItem, ReadAttrs, Concat, Ders;
    if rdns != [] {
      var inner, rest := Concat(Ders(rdns[0])), Encoded(rdns[1..]);
      TlvSize(SET, inner);
      ReadTlv(SET, inner, rest);
      ReadAttrsBack(rdns[0]);
      ReadEncoded(rdns[1..]);
      assert rdns == [rdns[0]] + rdns[1..];
    }
  }

  /** Parsing an encoded name gives back its RDNs and attributes in order, whatever
      follows the outer SEQUENCE. */
  lemma ParseUndoesEncoding(rdns: seq<Rdn>, trailing: Bytes)
    requires |Encoded(rdns)| < INT_LIMIT
    ensures ReadName(Tlv(SEQUENCE, Encoded(rdns)) + trailing) == Some(rdns)
  {
    hide Tlv, ReadItem, ReadRdns, Encoded;
    ReadTlv(SEQUENCE, Encoded(rdns), trailing);
    ReadEncoded(rdns);
  }
}
