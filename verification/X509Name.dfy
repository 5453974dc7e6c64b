// X.509 subject names (ca.go): parseX509RawSubject and buildCanonicalX509NameDER.
module X509Name {
  import opened Order
  import opened Policy
  import opened Der
  import opened Utf8
  import opened CanonicalText

  datatype Attr = Attr(oid: Bytes, tag: Byte, data: Bytes)

  /** One SET of attributes. */
  type Rdn = seq<Attr>

  const SEQUENCE: Byte := 0x30
  const SET: Byte := 0x31
  const OID: Byte := 0x06

  // ------------------------------------------------------------- reading

  /** A tag-length-value item at the front of data and what follows it. */
  datatype Item = Item(tag: Byte, content: Bytes, rest: Bytes)

  function ReadItem(data: Bytes): (r: Option<Item>)
    ensures r.Some? ==> |r.value.rest| < |data| && |r.value.content| < |data|
  {
    if data == [] then None
    else
      match ReadLength(data, 1)
      case None => None
      case Some(l) =>
        if l.value > |data| - l.next then None
        else Some(Item(data[0], data[l.next..l.next + l.value], data[l.next + l.value..]))
  }

  /** An attribute's content: an OID and a value; what follows the value is ignored. */
  function ReadAttr(content: Bytes): Option<Attr> {
    match ReadItem(content)
    case None => None
    case Some(oid) =>
      if oid.tag != OID then None
      else
        match ReadItem(oid.rest)
        case None => None
        case Some(value) => Some(Attr(oid.content, value.tag, value.content))
  }

  function ReadAttrs(set_: Bytes): Option<Rdn>
    decreases |set_|
  {
    if set_ == [] then Some([])
    else
      match ReadItem(set_)
      case None => None
      case Some(item) =>
        if item.tag != SEQUENCE then None
        else
          match (ReadAttr(item.content), ReadAttrs(item.rest))
          case (Some(attr), Some(attrs)) => Some([attr] + attrs)
          case _ => None
  }

  function ReadRdns(content: Bytes): Option<seq<Rdn>>
    decreases |content|
  {
    if content == [] then Some([])
    else
      match ReadItem(content)
      case None => None
      case Some(item) =>
        if item.tag != SET then None
        else
          match (ReadAttrs(item.content), ReadRdns(item.rest))
          case (Some(rdn), Some(rdns)) => Some([rdn] + rdns)
          case _ => None
  }

  /** The parsed name; what follows the outer SEQUENCE is ignored. */
  function ReadName(raw: Bytes): Option<seq<Rdn>> {
    match ReadItem(raw)
    case None => None
    case Some(item) => if item.tag != SEQUENCE then None else ReadRdns(item.content)
  }

  // ------------------------------------------------- the source's offsets

  /** A length field at `offset` and its content within data, as the parser takes them. */
  method TakeContent(data: Bytes, pos: nat) returns (r: Option<Item>)
    requires pos < |data|
    ensures r == ReadItem(data[pos..])
  {
    ReadLengthShift(data, pos, 1);
    var len := ParseLength(data, pos + 1);
    if len.None? { return None; }
    if len.value.value > |data| - len.value.next { return None; }
    var off, end := len.value.next, len.value.next + len.value.value;
    assert data[pos..][off - pos..end - pos] == data[off..end] && data[pos..][end - pos..] == data[end..];
    return Some(Item(data[pos], data[off..end], data[end..]));
  }

  method ParseAttr(content: Bytes) returns (r: Option<Attr>)
    ensures r == ReadAttr(content)
  {
    hide ReadLength;
    if |content| < 2 || content[0] != OID {
      ShortItem(content);
      return None;
    }
    assert content[0..] == content;
    var oid := TakeContent(content, 0);
    if oid.None? { return None; }
    var rest := oid.value.rest;
    if |rest| < 2 {
      ShortItem(rest);
      return None;
    }
    assert rest[0..] == rest;
    var value := TakeContent(rest, 0);
    if value.None? { return None; }
    return Some(Attr(oid.value.content, value.value.tag, value.value.content));
  }

  lemma ShortItem(data: Bytes)
    ensures |data| < 2 ==> ReadItem(data).None?
    ensures |data| >= 2 && ReadItem(data).Some? ==> ReadItem(data).value.tag == data[0]
  {
  }

  /** The attributes read before position pos, then the rest, make the whole. */
  ghost predicate AttrsSoFar(set_: Bytes, pos: nat, attrs: Rdn)
    requires pos <= |set_|
  {
    ReadAttrs(set_) == match ReadAttrs(set_[pos..]) case None => None case Some(more) => Some(attrs + more)
  }

  lemma NextAttr(set_: Bytes, pos: nat, attrs: Rdn)
    requires pos < |set_| && AttrsSoFar(set_, pos, attrs)
    ensures var item := ReadItem(set_[pos..]);
            if item.None? || item.value.tag != SEQUENCE || ReadAttr(item.value.content).None? then ReadAttrs(set_).None?
            else pos < |set_| - |item.value.rest| &&
                 (set_[|set_| - |item.value.rest|..] == item.value.rest ==>
                    AttrsSoFar(set_, |set_| - |item.value.rest|, attrs + [ReadAttr(item.value.content).value]))
  {
    hide ReadItem, ReadAttr;
    var tail := set_[pos..];
    var item := ReadItem(tail);
    if item.Some? && item.value.tag == SEQUENCE && ReadAttr(item.value.content).Some? {
      var attr := ReadAttr(item.value.content).value;
      var more := ReadAttrs(item.value.rest);
      if more.Some? { assert attrs + ([attr] + more.value) == (attrs + [attr]) + more.value; }
    }
  }

  lemma RestIsSuffix(data: Bytes, pos: nat)
    requires pos < |data|
    ensures ReadItem(data[pos..]).Some? ==>
              var rest := ReadItem(data[pos..]).value.rest; |rest| < |data| - pos && data[|data| - |rest|..] == rest
  {
  }

  method ParseAttrs(set_: Bytes) returns (r: Option<Rdn>)
    ensures r == ReadAttrs(set_)
  {
    hide ReadItem, ReadAttr, ReadAttrs;
    var attrs: Rdn := [];
    var pos := 0;
    AttrsStart(set_);
    while pos < |set_|
      invariant pos <= |set_| && AttrsSoFar(set_, pos, attrs)
    {
      NextAttr(set_, pos, attrs);
      RestIsSuffix(set_, pos);
      TagAt(set_, pos);
      if set_[pos] != SEQUENCE { return None; }
      var item := TakeContent(set_, pos);
      if item.None? { return None; }
      pos := |set_| - |item.value.rest|;
      var attr := ParseAttr(item.value.content);
      if attr.None? { return None; }
      attrs := attrs + [attr.value];
    }
    AttrsEnd(set_, attrs);
    return Some(attrs);
  }

  lemma TagAt(data: Bytes, pos: nat)
    requires pos < |data|
    ensures ReadItem(data[pos..]).Some? ==> ReadItem(data[pos..]).value.tag == data[pos]
  {
  }

  lemma AttrsStart(set_: Bytes)
    ensures AttrsSoFar(set_, 0, [])
  {
    hide ReadItem, ReadAttr;
    assert set_[0..] == set_;
    if ReadAttrs(set_).Some? { assert [] + ReadAttrs(set_).value == ReadAttrs(set_).value; }
  }

  lemma AttrsEnd(set_: Bytes, attrs: Rdn)
    requires AttrsSoFar(set_, |set_|, attrs)
    ensures ReadAttrs(set_) == Some(attrs)
  {
    hide ReadItem, ReadAttr;
    assert set_[|set_|..] == [] && attrs + [] == attrs;
  }

  ghost predicate RdnsSoFar(content: Bytes, pos: nat, rdns: seq<Rdn>)
    requires pos <= |content|
  {
    ReadRdns(content) == match ReadRdns(content[pos..]) case None => None case Some(more) => Some(rdns + more)
  }

  lemma NextRdn(content: Bytes, pos: nat, rdns: seq<Rdn>)
    requires pos < |content| && RdnsSoFar(content, pos, rdns)
    ensures var item := ReadItem(content[pos..]);
            if item.None? || item.value.tag != SET || ReadAttrs(item.value.content).None? then ReadRdns(content).None?
            else pos < |content| - |item.value.rest| &&
                 (content[|content| - |item.value.rest|..] == item.value.rest ==>
                    RdnsSoFar(content, |content| - |item.value.rest|, rdns + [ReadAttrs(item.value.content).value]))
  {
    hide ReadItem, ReadAttrs;
    var tail := content[pos..];
    var item := ReadItem(tail);
    if item.Some? && item.value.tag == SET && ReadAttrs(item.value.content).Some? {
      var rdn := ReadAttrs(item.value.content).value;
      var more := ReadRdns(item.value.rest);
      if more.Some? { assert rdns + ([rdn] + more.value) == (rdns + [rdn]) + more.value; }
    }
  }

  lemma RdnsStartEnd(content: Bytes, rdns: seq<Rdn>)
    ensures RdnsSoFar(content, 0, [])
    ensures RdnsSoFar(content, |content|, rdns) ==> ReadRdns(content) == Some(rdns)
  {
    hide ReadItem, ReadAttrs;
    assert content[0..] == content;
    if ReadRdns(content).Some? { assert [] + ReadRdns(content).value == ReadRdns(content).value; }
    assert content[|content|..] == [] && rdns + [] == rdns;
  }

  /** parseX509RawSubject. */
  method ParseRawSubject(raw: Bytes) returns (r: Option<seq<Rdn>>)
    ensures r == ReadName(raw)
  {
    hide ReadItem, ReadAttrs, ReadRdns;
    ShortItem(raw);
    if |raw| < 2 || raw[0] != SEQUENCE { return None; }
    assert raw[0..] == raw;
    var outer := TakeContent(raw, 0);
    if outer.None? { return None; }
    var content := outer.value.content;
    var rdns: seq<Rdn> := [];
    var pos := 0;
    RdnsStartEnd(content, rdns);
    while pos < |content|
      invariant pos <= |content| && RdnsSoFar(content, pos, rdns)
    {
      NextRdn(content, pos, rdns);
      RestIsSuffix(content, pos);
      TagAt(content, pos);
      if content[pos] != SET { return None; }
      var item := TakeContent(content, pos);
      if item.None? { return None; }
      pos := |content| - |item.value.rest|;
      var rdn := ParseAttrs(item.value.content);
      if rdn.None? { return None; }
      rdns := rdns + [rdn.value];
    }
    RdnsStartEnd(content, rdns);
    return Some(rdns);
  }

  // ------------------------------------------------------------- writing

  function Tlv(tag: Byte, content: Bytes): Bytes { [tag] + LengthOctets(|content|) + content }

  /** asn1StringNeedsCanon. */
  predicate NeedsCanon(tag: Byte) {
    tag == UTF8_STRING || tag == PRINTABLE_STRING || tag == IA5_STRING || tag == T61_STRING ||
    tag == BMP_STRING || tag == UNIVERSAL_STRING || tag == VISIBLE_STRING
  }

  /** The attribute with its text canonicalized; None is a conversion error. */
  ghost function CanonicalAttr(a: Attr): Option<Attr> {
    if !NeedsCanon(a.tag) then Some(a)
    else match CanonicalValue(a.data, a.tag) case None => None case Some(text) => Some(Attr(a.oid, UTF8_STRING, text))
  }

  function AttrContent(a: Attr): Bytes { Tlv(OID, a.oid) + Tlv(a.tag, a.data) }

  function AttrDer(a: Attr): Bytes { Tlv(SEQUENCE, AttrContent(a)) }

  /** The DER of the canonicalized attributes, in order. */
  ghost function AttrDers(rdn: Rdn): Option<seq<Bytes>> {
    if rdn == [] then Some([])
    else
      var n := |rdn| - 1;
      match (AttrDers(rdn[..n]), CanonicalAttr(rdn[n]))
      case (Some(before), Some(a)) => Some(before + [AttrDer(a)])
      case _ => None
  }

  function DerKey(d: Bytes): seq<int> { d }

  function Concat(parts: seq<Bytes>): Bytes {
    if parts == [] then [] else Concat(parts[..|parts| - 1]) + parts[|parts| - 1]
  }

  ghost function RdnDer(rdn: Rdn): Option<Bytes> {
    match AttrDers(rdn) case None => None case Some(ders) => Some(Tlv(SET, Concat(SortBy(DerKey, ders))))
  }

  /** The canonical name without its outer SEQUENCE header. */
  ghost function NameDer(rdns: seq<Rdn>): Option<Bytes> {
    if rdns == [] then Some([])
    else
      var n := |rdns| - 1;
      match (NameDer(rdns[..n]), RdnDer(rdns[n]))
      case (Some(before), Some(der)) => Some(before + der)
      case _ => None
  }

  method BuildTlv(tag: Byte, content: Bytes) returns (out: Bytes)
    ensures out == Tlv(tag, content)
  {
    var octets := EncodeLength(|content|);
    out := [tag];
    out := out + octets;
    out := out + content;
  }

  method BuildAttr(a: Attr) returns (der: Option<Bytes>)
    ensures der == match CanonicalAttr(a) case None => None case Some(c) => Some(AttrDer(c))
  {
    hide LengthOctets, Tlv;
    var inner := BuildTlv(OID, a.oid);
    if NeedsCanon(a.tag) {
      var canon := CanonicalizeValue(a.data, a.tag);
      if canon.None? { return None; }
      var value := BuildTlv(UTF8_STRING, canon.value);
      inner := inner + value;
    } else {
      var value := BuildTlv(a.tag, a.data);
      inner := inner + value;
    }
    var outer := BuildTlv(SEQUENCE, inner);
    return Some(outer);
  }

  lemma {:induction false} AttrDersFail(rdn: Rdn, k: nat)
    requires k <= |rdn| && AttrDers(rdn[..k]).None?
    ensures AttrDers(rdn).None?
    decreases |rdn|
  {
    if k < |rdn| {
      assert rdn[..|rdn| - 1][..k] == rdn[..k];
      AttrDersFail(rdn[..|rdn| - 1], k);
    } else {
      assert rdn[..k] == rdn;
    }
  }

  method BuildRdn(rdn: Rdn) returns (der: Option<Bytes>)
    ensures der == RdnDer(rdn)
  {
    hide CanonicalAttr, AttrDer, Tlv;
    var attrs: seq<Bytes> := [];
    for k := 0 to |rdn|
      invariant AttrDers(rdn[..k]) == Some(attrs)
    {
      assert rdn[..k + 1][..k] == rdn[..k];
      var one := BuildAttr(rdn[k]);
      if one.None? {
        AttrDersFail(rdn, k + 1);
        return None;
      }
      attrs := attrs + [one.value];
    }
    assert rdn[..|rdn|] == rdn;
    var sorted := SortBy(DerKey, attrs);
    var setInner: Bytes := [];
    for k := 0 to |sorted|
      invariant setInner == Concat(sorted[..k])
    {
      assert sorted[..k + 1][..k] == sorted[..k];
      setInner := setInner + sorted[k];
    }
    assert sorted[..|sorted|] == sorted;
    var outer := BuildTlv(SET, setInner);
    return Some(outer);
  }

  lemma {:induction false} NameDerFail(rdns: seq<Rdn>, k: nat)
    requires k <= |rdns| && NameDer(rdns[..k]).None?
    ensures NameDer(rdns).None?
    decreases |rdns|
  {
    hide RdnDer;
    if k < |rdns| {
      assert rdns[..|rdns| - 1][..k] == rdns[..k];
      NameDerFail(rdns[..|rdns| - 1], k);
    } else {
      assert rdns[..k] == rdns;
    }
  }

  /** buildCanonicalX509NameDER. */
  method BuildCanonicalName(rdns: seq<Rdn>) returns (der: Option<Bytes>)
    ensures der == NameDer(rdns)
  {
    hide RdnDer;
    var buf: Bytes := [];
    for k := 0 to |rdns|
      invariant NameDer(rdns[..k]) == Some(buf)
    {
      assert rdns[..k + 1][..k] == rdns[..k];
      var one := BuildRdn(rdns[k]);
      if one.None? {
        NameDerFail(rdns, k + 1);
        return None;
      }
      buf := buf + one.value;
    }
    assert rdns[..|rdns|] == rdns;
    return Some(buf);
  }
}
