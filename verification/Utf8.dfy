// Conversion of ASN.1 strings to UTF-8 (ca.go, convertASN1StringToUTF8).
module Utf8 {
  import opened Policy
  import opened Der

  const UTF8_STRING: Byte := 0x0c
  const PRINTABLE_STRING: Byte := 0x13
  const T61_STRING: Byte := 0x14
  const IA5_STRING: Byte := 0x16
  const VISIBLE_STRING: Byte := 0x1a
  const UNIVERSAL_STRING: Byte := 0x1c
  const BMP_STRING: Byte := 0x1e

  /** A Unicode scalar value. */
  predicate Scalar(c: int) { 0 <= c < 0xd800 || 0xe000 <= c <= 0x10ffff }

  // ------------------------------------------ RFC 3629, independently

  predicate Continuation(b: Byte) { 0x80 <= b < 0xc0 }

  /** The six payload bits of a continuation octet. */
  function Payload(b: Byte): int { b as int - 0x80 }

  datatype Decoded = Decoded(code: int, length: nat)

  /** The first character of a well-formed UTF-8 octet sequence, by the syntax of
      section 4 of RFC 3629: no overlong form, no surrogate, nothing above U+10FFFF. */
  function DecodeFirst(s: Bytes): (r: Option<Decoded>)
    ensures r.Some? ==> 0 < r.value.length <= |s|
  {
    if s == [] then None
    else
      var lead: int := s[0];
      if lead < 0x80 then Some(Decoded(lead, 1))
      else if 0xc2 <= lead <= 0xdf && |s| >= 2 && Continuation(s[1]) then
        Some(Decoded((lead - 0xc0) * 0x40 + Payload(s[1]), 2))
      else if 0xe0 <= lead <= 0xef && |s| >= 3 && Continuation(s[1]) && Continuation(s[2]) &&
              (lead == 0xe0 ==> s[1] >= 0xa0) && (lead == 0xed ==> s[1] <= 0x9f) then
        Some(Decoded((lead - 0xe0) * 0x1000 + Payload(s[1]) * 0x40 + Payload(s[2]), 3))
      else if 0xf0 <= lead <= 0xf4 && |s| >= 4 && Continuation(s[1]) && Continuation(s[2]) && Continuation(s[3]) &&
              (lead == 0xf0 ==> s[1] >= 0x90) && (lead == 0xf4 ==> s[1] <= 0x8f) then
        Some(Decoded((lead - 0xf0) * 0x40000 + Payload(s[1]) * 0x1000 + Payload(s[2]) * 0x40 + Payload(s[3]), 4))
      else None
  }

  /** The characters of a well-formed octet sequence, None if it is malformed. */
  function Decode(s: Bytes): Option<seq<int>>
    decreases |s|
  {
    if s == [] then Some([])
    else
      match DecodeFirst(s)
      case None => None
      case Some(d) =>
        match Decode(s[d.length..])
        case None => None
        case Some(rest) => Some([d.code] + rest)
  }

  // --------------------------------------------------- the source's bytes

  function Octets(c: int): Bytes
    requires 0 <= c <= 0x10ffff
  {
    if c < 0x80 then [c]
    else if c < 0x800 then [0xc0 + c / 0x40, 0x80 + c % 0x40]
    else if c < 0x10000 then [0xe0 + c / 0x1000, 0x80 + c / 0x40 % 0x40, 0x80 + c % 0x40]
    else [0xf0 + c / 0x40000, 0x80 + c / 0x1000 % 0x40, 0x80 + c / 0x40 % 0x40, 0x80 + c % 0x40]
  }

  predicate AllScalar(codes: seq<int>) { forall i | 0 <= i < |codes| :: Scalar(codes[i]) }

  function Encode(codes: seq<int>): Bytes
    requires AllScalar(codes)
  {
    if codes == [] then [] else Encode(codes[..|codes| - 1]) + Octets(codes[|codes| - 1])
  }

  lemma Octets2(c: int, a: Byte, b: Byte)
    requires 0x80 <= c < 0x800 && Octets(c) == [a, b]
    ensures 0xc2 <= a <= 0xdf && Continuation(b) && c == (a as int - 0xc0) * 0x40 + Payload(b)
  {
  }

  lemma Octets3(c: int, a: Byte, b: Byte, d: Byte)
    requires 0x800 <= c < 0x10000 && Scalar(c) && Octets(c) == [a, b, d]
    ensures 0xe0 <= a <= 0xef && Continuation(b) && Continuation(d)
    ensures (a == 0xe0 ==> b >= 0xa0) && (a == 0xed ==> b <= 0x9f)
    ensures c == (a as int - 0xe0) * 0x1000 + Payload(b) * 0x40 + Payload(d)
  {
    assert c == c / 0x40 * 0x40 + c % 0x40;
    assert c / 0x40 == c / 0x1000 * 0x40 + c / 0x40 % 0x40;
  }

  lemma Octets4(c: int, a: Byte, b: Byte, d: Byte, e: Byte)
    requires 0x10000 <= c <= 0x10ffff && Octets(c) == [a, b, d, e]
    ensures 0xf0 <= a <= 0xf4 && Continuation(b) && Continuation(d) && Continuation(e)
    ensures (a == 0xf0 ==> b >= 0x90) && (a == 0xf4 ==> b <= 0x8f)
    ensures c == (a as int - 0xf0) * 0x40000 + Payload(b) * 0x1000 + Payload(d) * 0x40 + Payload(e)
  {
    assert c == c / 0x40 * 0x40 + c % 0x40;
    assert c / 0x40 == c / 0x1000 * 0x40 + c / 0x40 % 0x40;
    assert c / 0x1000 == c / 0x40000 * 0x40 + c / 0x1000 % 0x40;
  }

  lemma OctetsDecode(c: int, rest: Bytes)
    requires Scalar(c)
    ensures DecodeFirst(Octets(c) + rest) == Some(Decoded(c, |Octets(c)|))
  {
    hide Continuation, Payload;
    var o := Octets(c);
    var s := o + rest;
    assert forall i | 0 <= i < |o| :: s[i] == o[i];
    if c < 0x80 {
    } else if c < 0x800 {
      Octets2(c, o[0], o[1]);
    } else if c < 0x10000 {
      Octets3(c, o[0], o[1], o[2]);
    } else {
      Octets4(c, o[0], o[1], o[2], o[3]);
    }
  }

  lemma {:induction false} EncodeFirst(codes: seq<int>)
    requires codes != [] && AllScalar(codes)
    ensures Encode(codes) == Octets(codes[0]) + Encode(codes[1..])
  {
    hide Octets;
    var n := |codes| - 1;
    if n > 0 {
      EncodeFirst(codes[..n]);
      assert codes[..n][1..] == codes[1..][..n - 1];
      assert Encode(codes[1..]) == Encode(codes[1..][..n - 1]) + Octets(codes[n]);
    } else {
      assert Encode(codes[..0]) == [] && Encode(codes[1..]) == [];
    }
  }

  /** Encoded scalar values are well-formed UTF-8 that decodes to exactly them. */
  lemma {:induction false} EncodeDecodes(codes: seq<int>)
    requires AllScalar(codes)
    ensures Decode(Encode(codes)) == Some(codes)
  {
    hide DecodeFirst, Octets;
    if codes != [] {
      EncodeFirst(codes);
      EncodeDecodes(codes[1..]);
      var rest := Encode(codes[1..]);
      OctetsDecode(codes[0], rest);
      var s := Octets(codes[0]) + rest;
      assert s[|Octets(codes[0])|..] == rest;
      assert codes == [codes[0]] + codes[1..];
    }
  }

  // ------------------------------------------------- the declared strings

  predicate Wide(tag: Byte) { tag == T61_STRING || tag == BMP_STRING || tag == UNIVERSAL_STRING }

  type Size = n: nat | n == 1 || n == 2 || n == 4 witness 1

  function UnitSize(tag: Byte): Size {
    if tag == BMP_STRING then 2 else if tag == UNIVERSAL_STRING then 4 else 1
  }

  predicate Whole(n: nat, size: Size) {
    (size == 2 ==> n % 2 == 0) && (size == 4 ==> n % 4 == 0)
  }

  /** The code points a T61 (Latin-1), BMP (big-endian 16-bit) or Universal
      (big-endian 32-bit) string declares. */
  function Units(data: Bytes, size: Size): seq<int>
    requires Whole(|data|, size)
  {
    if data == [] then []
    else
      WholeDown(|data|, size);
      Units(data[..|data| - size], size) + [BigEndian(data[|data| - size..])]
  }

  lemma WholeDown(n: nat, size: Size)
    requires n > 0 && Whole(n, size)
    ensures n >= size && Whole(n - size, size)
  {
    EvenDown(n);
    FourthDown(n);
  }

  lemma EvenDown(n: int)
    ensures n % 2 == 0 && n > 0 ==> n >= 2 && (n - 2) % 2 == 0
  {
  }

  lemma FourthDown(n: int)
    ensures n % 4 == 0 && n > 0 ==> n >= 4 && (n - 4) % 4 == 0
  {
  }

  /** Whole units, each a scalar value. */
  ghost predicate Convertible(data: Bytes, tag: Byte) {
    Whole(|data|, UnitSize(tag)) && AllScalar(Units(data, UnitSize(tag)))
  }

  /** What the conversion returns: None is its error. */
  ghost function Converted(data: Bytes, tag: Byte): Option<Bytes> {
    if !Wide(tag) then Some(data)
    else if Convertible(data, tag) then Some(Encode(Units(data, UnitSize(tag))))
    else None
  }

  lemma WholeStep(n: nat, size: Size, i: nat)
    requires Whole(n, size) && Whole(i, size) && i < n
    ensures i + size <= n && Whole(i + size, size)
  {
    EvenStep(n, i);
    FourthStep(n, i);
  }

  lemma EvenStep(n: int, i: int)
    ensures n % 2 == 0 && i % 2 == 0 && i < n ==> i + 2 <= n && (i + 2) % 2 == 0
  {
  }

  lemma FourthStep(n: int, i: int)
    ensures n % 4 == 0 && i % 4 == 0 && i < n ==> i + 4 <= n && (i + 4) % 4 == 0
  {
  }

  lemma UnitStep(data: Bytes, size: Size, i: nat)
    requires Whole(|data|, size) && Whole(i, size) && i < |data|
    ensures i + size <= |data| && Whole(i + size, size)
    ensures Units(data[..i + size], size) == Units(data[..i], size) + [BigEndian(data[i..i + size])]
  {
    hide BigEndian, Whole;
    WholeStep(|data|, size, i);
    var d := data[..i + size];
    assert d[..|d| - size] == data[..i] && d[|d| - size..] == data[i..i + size];
  }

  lemma {:induction false} UnitsOfPrefix(data: Bytes, size: Size, i: nat)
    requires Whole(|data|, size) && Whole(i, size) && i <= |data|
    ensures Units(data[..i], size) <= Units(data, size)
    decreases |data| - i
  {
    hide Units;
    if i < |data| {
      UnitStep(data, size, i);
      UnitsOfPrefix(data, size, i + size);
    } else {
      assert data[..i] == data;
    }
  }

  /** One more unit of the input: refuse it or append its octets. */
  lemma ConvertStep(data: Bytes, tag: Byte, i: nat, out: Bytes)
    requires Whole(|data|, UnitSize(tag)) && Whole(i, UnitSize(tag)) && i < |data|
    requires AllScalar(Units(data[..i], UnitSize(tag)))
    requires out == Encode(Units(data[..i], UnitSize(tag)))
    ensures var size := UnitSize(tag);
            && i + size <= |data| && Whole(i + size, size)
            && var c := BigEndian(data[i..i + size]);
               if Scalar(c)
               then AllScalar(Units(data[..i + size], size)) && out + Octets(c) == Encode(Units(data[..i + size], size))
               else !Convertible(data, tag)
  {
    hide Octets, BigEndian, Units;
    var size := UnitSize(tag);
    UnitStep(data, size, i);
    var u := Units(data[..i + size], size);
    assert u[..|u| - 1] == Units(data[..i], size);
    UnitsOfPrefix(data, size, i + size);
    assert u[|u| - 1] == Units(data, size)[|u| - 1];
  }

  function Pair(a: int, b: int): int { a * 0x100 + b }

  function Quad(a: int, b: int, c: int, d: int): int { a * 0x1000000 + b * 0x10000 + c * 0x100 + d }

  lemma BigEndianUnits(d: Bytes)
    ensures |d| == 1 ==> BigEndian(d) == d[0]
    ensures |d| == 2 ==> BigEndian(d) == Pair(d[0], d[1])
    ensures |d| == 4 ==> BigEndian(d) == Quad(d[0], d[1], d[2], d[3])
  {
    if |d| == 1 { assert d[..0] == []; }
    if |d| == 2 { BigEndianUnits(d[..1]); }
    if |d| == 4 {
      assert d[..3][..2] == d[..2];
      BigEndianUnits(d[..2]);
      assert BigEndian(d[..3]) == BigEndian(d[..2]) * 0x100 + d[2];
    }
  }

  /** convertASN1StringToUTF8. */
  method Convert(data: Bytes, tag: Byte) returns (out: Option<Bytes>)
    ensures out == Converted(data, tag)
  {
    if tag == T61_STRING {
      var result := ConvertLatin1(data);
      return Some(result);
    } else if tag == BMP_STRING {
      out := ConvertBmp(data);
    } else if tag == UNIVERSAL_STRING {
      out := ConvertUniversal(data);
    } else {
      return Some(data);
    }
  }

  method ConvertLatin1(data: Bytes) returns (result: Bytes)
    ensures Convertible(data, T61_STRING) && result == Encode(Units(data, 1))
  {
    hide Encode, Units, BigEndian;
    result := [];
    StartUnits(data, 1);
    for i := 0 to |data|
      invariant AllScalar(Units(data[..i], 1))
      invariant result == Encode(Units(data[..i], 1))
    {
      ConvertStep(data, T61_STRING, i, result);
      BigEndianUnits(data[i..i + 1]);
      var b := data[i];
      if b < 0x80 { result := result + [b]; } else { result := result + [0xc0 + b / 0x40, 0x80 + b % 0x40]; }
    }
    assert data[..|data|] == data;
  }

  lemma StartUnits(data: Bytes, size: Size)
    ensures Units(data[..0], size) == [] && Encode([]) == []
  {
  }

  method ConvertBmp(data: Bytes) returns (out: Option<Bytes>)
    ensures out == Converted(data, BMP_STRING)
  {
    hide Encode, Units, BigEndian;
    if |data| % 2 != 0 { return None; }
    var result: Bytes := [];
    var i := 0;
    StartUnits(data, 2);
    while i < |data|
      invariant i <= |data| && i % 2 == 0
      invariant AllScalar(Units(data[..i], 2))
      invariant result == Encode(Units(data[..i], 2))
    {
      ConvertStep(data, BMP_STRING, i, result);
      BigEndianUnits(data[i..i + 2]);
      var ch: int := Pair(data[i], data[i + 1]);
      if 0xd800 <= ch <= 0xdfff { return None; }
      if ch < 0x80 { result := result + [ch]; }
      else if ch < 0x800 { result := result + [0xc0 + ch / 0x40, 0x80 + ch % 0x40]; }
      else { result := result + [0xe0 + ch / 0x1000, 0x80 + ch / 0x40 % 0x40, 0x80 + ch % 0x40]; }
      i := i + 2;
    }
    assert data[..|data|] == data;
    return Some(result);
  }

  method ConvertUniversal(data: Bytes) returns (out: Option<Bytes>)
    ensures out == Converted(data, UNIVERSAL_STRING)
  {
    hide Encode, Units, BigEndian;
    if |data| % 4 != 0 { return None; }
    var result: Bytes := [];
    var i := 0;
    StartUnits(data, 4);
    while i < |data|
      invariant i <= |data| && i % 4 == 0
      invariant AllScalar(Units(data[..i], 4))
      invariant result == Encode(Units(data[..i], 4))
    {
      ConvertStep(data, UNIVERSAL_STRING, i, result);
      BigEndianUnits(data[i..i + 4]);
      var ch: int := Quad(data[i], data[i + 1], data[i + 2], data[i + 3]);
      if ch > 0x10ffff { return None; }
      if 0xd800 <= ch <= 0xdfff { return None; }
      if ch < 0x80 { result := result + [ch]; }
      else if ch < 0x800 { result := result + [0xc0 + ch / 0x40, 0x80 + ch % 0x40]; }
      else if ch < 0x10000 { result := result + [0xe0 + ch / 0x1000, 0x80 + ch / 0x40 % 0x40, 0x80 + ch % 0x40]; }
      else {
        result := result + [0xf0 + ch / 0x40000, 0x80 + ch / 0x1000 % 0x40, 0x80 + ch / 0x40 % 0x40, 0x80 + ch % 0x40];
      }
      i := i + 4;
    }
    assert data[..|data|] == data;
    return Some(result);
  }

  /** T61, BMP and Universal strings: every accepted input gives well-formed UTF-8
      that decodes to exactly the declared code points, and an input is refused
      exactly when it has a partial unit or declares something no scalar value is. */
  lemma ConversionIsExact(data: Bytes, tag: Byte)
    requires Wide(tag)
    ensures Converted(data, tag).Some? <==> Convertible(data, tag)
    ensures Converted(data, tag).Some? ==> Decode(Converted(data, tag).value) == Some(Units(data, UnitSize(tag)))
    ensures tag == T61_STRING ==> Converted(data, tag).Some?
  {
    if Convertible(data, tag) { EncodeDecodes(Units(data, UnitSize(tag))); }
    if tag == T61_STRING { Latin1Units(data); }
  }

  lemma {:induction false} Latin1Units(data: Bytes)
    ensures |Units(data, 1)| == |data| && forall i | 0 <= i < |data| :: Units(data, 1)[i] == data[i]
    ensures AllScalar(Units(data, 1))
  {
    if data != [] {
      var n := |data| - 1;
      Latin1Units(data[..n]);
      BigEndianUnits(data[n..]);
    }
  }
}
