// The subject names the parser accepts (ca.go:131-256): definite lengths in any of
// their forms, nothing left over in a SET or in the name, anything behind a value.
module X509Grammar {
  import opened Policy
  import opened Der
  import opened Utf8
  import opened X509Name

  /** A length of one octet, or of one to eight octets after their number (X.690 section 8.1.3);
      leading zero octets are allowed. */
  ghost predicate LengthForm(o: Bytes, v: nat) {
    || (|o| == 1 && o[0] < 0x80 && v == o[0])
    || (2 <= |o| <= 9 && o[0] == 0x80 + |o| - 1 && v == BigEndian(o[1..]) && v < 0x8000_0000_0000_0000)
  }

  ghost predicate Framed(d: Bytes, tag: Byte, o: Bytes, content: Bytes) {
    LengthForm(o, |content|) && d == [tag] + o + content
  }

  ghost predicate ItemForm(d: Bytes, tag: Byte, content: Bytes) { exists o :: Framed(d, tag, o, content) }

  /** An object identifier and a value; what follows them is ignored. */
  ghost predicate AttrForm(content: Bytes, a: Attr) {
    exists first, second, more ::
      content == first + second + more && ItemForm(first, 0x06, a.oid) && ItemForm(second, a.tag, a.data)
  }

  ghost predicate AttrsForm(content: Bytes, rdn: Rdn)
    decreases |rdn|
  {
    if rdn == [] then content == []
    else
      exists first, inner, rest ::
        content == first + rest && ItemForm(first, 0x30, inner) && AttrForm(inner, rdn[0]) && AttrsForm(rest, rdn[1..])
  }

  ghost predicate RdnsForm(content: Bytes, rdns: seq<Rdn>)
    decreases |rdns|
  {
    if rdns == [] then content == []
    else
      exists first, inner, rest ::
        content == first + rest && ItemForm(first, 0x31, inner) && AttrsForm(inner, rdns[0]) &&
        RdnsForm(rest, rdns[1..])
  }

  ghost predicate NameForm(raw: Bytes, rdns: seq<Rdn>) {
    exists first, inner, more :: raw == first + more && ItemForm(first, 0x30, inner) && RdnsForm(inner, rdns)
  }

  // --------------------------------------------------------------- items

  lemma LengthAt(data: Bytes, o: Bytes, v: nat)
    requires 1 + |o| <= |data| && data[1..1 + |o|] == o && LengthForm(o, v)
    ensures ReadLength(data, 1) == Some(Length(v, 1 + |o|))
  {
    hide BigEndian;
    assert data[1] == o[0];
    assert data[2..1 + |o|] == o[1..];
  }

  lemma LengthRead(data: Bytes)
    requires ReadLength(data, 1).Some?
    ensures var l := ReadLength(data, 1).value; LengthForm(data[1..l.next], l.value)
  {
    hide BigEndian;
    var l := ReadLength(data, 1).value;
    var o := data[1..l.next];
    assert o[0] == data[1] && o[1..] == data[2..l.next];
  }

  lemma ItemRead(data: Bytes) returns (first: Bytes)
    requires ReadItem(data).Some?
    ensures var item := ReadItem(data).value; data == first + item.rest && ItemForm(first, item.tag, item.content)
  {
    hide LengthForm;
    var item := ReadItem(data).value;
    var l := ReadLength(data, 1).value;
    LengthRead(data);
    var o := data[1..l.next];
    first := [item.tag] + o + item.content;
    assert Framed(first, item.tag, o, item.content);
    assert data == [data[0]] + data[1..l.next] + data[l.next..l.next + l.value] + data[l.next + l.value..];
  }

  lemma ItemAt(first: Bytes, tag: Byte, content: Bytes, rest: Bytes)
    requires ItemForm(first, tag, content)
    ensures first != [] && ReadItem(first + rest) == Some(Item(tag, content, rest))
  {
    hide LengthForm;
    var o :| Framed(first, tag, o, content);
    var data := first + rest;
    assert data[1..1 + |o|] == o;
    LengthAt(data, o, |content|);
    var n := 1 + |o|;
    assert data[n..n + |content|] == content && data[n + |content|..] == rest;
  }

  // --------------------------------------------------------------- names

  lemma ReadAttrIff(content: Bytes, a: Attr)
    ensures ReadAttr(content) == Some(a) <==> AttrForm(content, a)
  {
    hide ItemForm, ReadItem;
    if ReadAttr(content) == Some(a) {
      var first := ItemRead(content);
      var rest := ReadItem(content).value.rest;
      var second := ItemRead(rest);
      var more := ReadItem(rest).value.rest;
      assert content == first + second + more;
    }
    if AttrForm(content, a) {
      var first, second, more :|
        content == first + second + more && ItemForm(first, 0x06, a.oid) && ItemForm(second, a.tag, a.data);
      ItemAt(first, 0x06, a.oid, second + more);
      ItemAt(second, a.tag, a.data, more);
      assert content == first + (second + more);
    }
  }

  lemma {:induction false} ReadAttrsIff(content: Bytes, rdn: Rdn)
    ensures ReadAttrs(content) == Some(rdn) <==> AttrsForm(content, rdn)
    decreases |content|
  {
    hide ItemForm, AttrForm, ReadItem, ReadAttr;
    if ReadAttrs(content) == Some(rdn) && rdn != [] {
      var first := ItemRead(content);
      var item := ReadItem(content).value;
      ReadAttrIff(item.content, rdn[0]);
      ReadAttrsIff(item.rest, rdn[1..]);
    }
    if AttrsForm(content, rdn) && rdn != [] {
      var first, inner, rest :|
        content == first + rest && ItemForm(first, 0x30, inner) && AttrForm(inner, rdn[0]) && AttrsForm(rest, rdn[1..]);
      ItemAt(first, 0x30, inner, rest);
      ReadAttrIff(inner, rdn[0]);
      ReadAttrsIff(rest, rdn[1..]);
      assert rdn == [rdn[0]] + rdn[1..];
    }
  }

  lemma {:induction false} ReadRdnsIff(content: Bytes, rdns: seq<Rdn>)
    ensures ReadRdns(content) == Some(rdns) <==> RdnsForm(content, rdns)
    decreases |content|
  {
    hide ItemForm, AttrsForm, ReadItem, ReadAttrs;
    if ReadRdns(content) == Some(rdns) && rdns != [] {
      var first := ItemRead(content);
      var item := ReadItem(content).value;
      ReadAttrsIff(item.content, rdns[0]);
      ReadRdnsIff(item.rest, rdns[1..]);
    }
    if RdnsForm(content, rdns) && rdns != [] {
      var first, inner, rest :|
        content == first + rest && ItemForm(first, 0x31, inner) && AttrsForm(inner, rdns[0]) &&
        RdnsForm(rest, rdns[1..]);
      ItemAt(first, 0x31, inner, rest);
      ReadAttrsIff(inner, rdns[0]);
      ReadRdnsIff(rest, rdns[1..]);
      assert rdns == [rdns[0]] + rdns[1..];
    }
  }

  /** The parser accepts exactly the encodings of a name, in any definite lengths, and reads that name. */
  lemma ReadNameIff(raw: Bytes, rdns: seq<Rdn>)
    ensures ReadName(raw) == Some(rdns) <==> NameForm(raw, rdns)
  {
    hide ItemForm, RdnsForm, ReadItem, ReadRdns;
    if ReadName(raw) == Some(rdns) {
      var first := ItemRead(raw);
      ReadRdnsIff(ReadItem(raw).value.content, rdns);
    }
    if NameForm(raw, rdns) {
      var first, inner, more :| raw == first + more && ItemForm(first, 0x30, inner) && RdnsForm(inner, rdns);
      ItemAt(first, 0x30, inner, more);
      ReadRdnsIff(inner, rdns);
    }
  }
}
