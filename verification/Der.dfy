// DER lengths (ca.go): parseDERLength and encodeDERLength.
//
// A Go int is taken to be 64 bits wide, as on every platform the daemon supports.
module Der {
  import opened Policy

  type Byte = x: int | 0 <= x < 256
  type Bytes = seq<Byte>

  const INT_LIMIT: int := 0x8000_0000_0000_0000
  const WORD: int := 0x1_0000_0000_0000_0000

  /** A 64-bit word read as a signed int. */
  function Signed(x: int): int { if x % WORD >= INT_LIMIT then x % WORD - WORD else x % WORD }

  function Pow256(n: nat): (p: int)
    ensures p >= 1
  {
    if n == 0 then 1 else 256 * Pow256(n - 1)
  }

  function BigEndian(bs: Bytes): (v: int)
    ensures v >= 0
  {
    if bs == [] then 0 else BigEndian(bs[..|bs| - 1]) * 256 + bs[|bs| - 1]
  }

  /** The base-256 digits of a number, most significant first, no leading zero. */
  function Digits(n: nat): Bytes {
    if n == 0 then [] else Digits(n / 256) + [n % 256]
  }

  /** A decoded length and the offset after it. */
  datatype Length = Length(value: nat, next: nat)

  function ReadLength(data: Bytes, offset: nat): (r: Option<Length>)
    ensures r.Some? ==> offset < r.value.next <= |data| && r.value.value < INT_LIMIT
  {
    if offset >= |data| then None
    else if data[offset] < 128 then Some(Length(data[offset], offset + 1))
    else
      var n := data[offset] - 128;
      if n == 0 || n > 8 || offset + 1 + n > |data| then None
      else
        var v := BigEndian(data[offset + 1..offset + 1 + n]);
        if v >= INT_LIMIT then None else Some(Length(v, offset + 1 + n))
  }

  /** The definite form of X.690 section 8.1.3, in the fewest octets (section 10.1). */
  function LengthOctets(length: nat): Bytes {
    if length < 128 then [length]
    else var digits := Digits(length); [(128 + |digits|) % 256] + digits
  }

  lemma {:induction false} BigEndianBound(bs: Bytes)
    ensures BigEndian(bs) < Pow256(|bs|)
  {
    if bs != [] { BigEndianBound(bs[..|bs| - 1]); }
  }

  lemma PowersOfBytes()
    ensures Pow256(7) * 256 == Pow256(8) == WORD
  {
    assert Pow256(1) == 256;
    assert Pow256(2) == 0x1_0000;
    assert Pow256(3) == 0x100_0000;
    assert Pow256(4) == 0x1_0000_0000;
    assert Pow256(5) == 0x100_0000_0000;
    assert Pow256(6) == 0x1_0000_0000_0000;
    assert Pow256(7) == 0x100_0000_0000_0000;
  }

  lemma {:induction false} PowGrows(m: nat, n: nat)
    requires m <= n
    ensures Pow256(m) <= Pow256(n)
  {
    if m < n { PowGrows(m, n - 1); }
  }

  /** One octet of the length, while no more than seven came before. */
  lemma SignedStep(octets: Bytes, i: nat)
    requires i < |octets| <= 8
    ensures Signed(Signed(BigEndian(octets[..i])) * 256 + octets[i]) == Signed(BigEndian(octets[..i + 1]))
    ensures 0 <= BigEndian(octets[..i + 1]) < WORD
  {
    hide Pow256;
    PowersOfBytes();
    BigEndianBound(octets[..i]);
    BigEndianBound(octets[..i + 1]);
    PowGrows(i, 7);
    PowGrows(i + 1, 8);
    assert octets[..i + 1][..i] == octets[..i];
  }

  /** parseDERLength. Only the last of eight octets can wrap, and then to a negative length. */
  method ParseLength(data: Bytes, offset: nat) returns (r: Option<Length>)
    ensures r == ReadLength(data, offset)
  {
    hide Pow256, BigEndian, Signed;
    if offset >= |data| { return None; }
    var b := data[offset];
    var at := offset + 1;
    if b < 128 { return Some(Length(b, at)); }
    var n := b - 128;
    if n == 0 || n > 8 || at + n > |data| { return None; }
    var length := 0;
    ghost var octets := data[at..at + n];
    NoOctets();
    for i := 0 to n
      invariant at == offset + 1 + i
      invariant length == Signed(BigEndian(octets[..i])) && BigEndian(octets[..i]) < WORD
    {
      SignedStep(octets, i);
      length := Signed(length * 256 + data[at]);
      at := at + 1;
    }
    assert octets[..n] == octets;
    SignedSign(BigEndian(octets));
    if length < 0 { return None; }
    return Some(Length(length, at));
  }

  lemma NoOctets()
    ensures Signed(BigEndian([])) == 0 && BigEndian([]) == 0
  {
  }

  lemma SignedSign(v: nat)
    requires v < WORD
    ensures if v >= INT_LIMIT then Signed(v) < 0 else Signed(v) == v
  {
  }

  /** encodeDERLength. */
  method EncodeLength(length: nat) returns (octets: Bytes)
    ensures octets == LengthOctets(length)
  {
    if length < 128 { return [length]; }
    var digits: Bytes := [];
    var rest := length;
    while rest > 0
      invariant rest >= 0 && Digits(length) == Digits(rest) + digits
    {
      digits := [rest % 256] + digits;
      rest := rest / 256;
    }
    return [(128 + |digits|) % 256] + digits;
  }

  lemma {:induction false} DigitsValue(n: nat)
    ensures BigEndian(Digits(n)) == n
  {
    if n > 0 {
      DigitsValue(n / 256);
      var d := Digits(n);
      assert d[..|d| - 1] == Digits(n / 256);
    }
  }

  lemma {:induction false} DigitsBound(n: nat, k: nat)
    requires n < Pow256(k)
    ensures |Digits(n)| <= k
  {
    if n > 0 && k > 0 { DigitsBound(n / 256, k - 1); }
  }

  lemma {:induction false} BigEndianInjective(a: Bytes, b: Bytes)
    requires |a| == |b| && BigEndian(a) == BigEndian(b)
    ensures a == b
  {
    if a != [] {
      var x, y := a[..|a| - 1], b[..|b| - 1];
      BigEndianInjective(x, y);
      assert a == x + [a[|a| - 1]] && b == y + [b[|b| - 1]];
    }
  }

  /** Reading undoes encoding, at every offset and whatever follows. */
  lemma LengthRoundTrip(before: Bytes, length: nat, after: Bytes)
    requires length < INT_LIMIT
    ensures var o := LengthOctets(length);
            ReadLength(before + o + after, |before|) == Some(Length(length, |before| + |o|))
  {
    var o := LengthOctets(length);
    var data := before + o + after;
    assert data[|before|] == o[0];
    if length >= 128 {
      PowersOfBytes();
      DigitsBound(length, 8);
      DigitsValue(length);
      var n := |Digits(length)|;
      assert data[|before| + 1..|before| + 1 + n] == o[1..] == Digits(length);
    }
  }

  /** Among the encodings the parser accepts for a length, the encoder's is the
      shortest and the only one that short. */
  lemma LengthOctetsShortest(data: Bytes, length: nat)
    requires ReadLength(data, 0) == Some(Length(length, |data|))
    ensures |LengthOctets(length)| <= |data|
    ensures |LengthOctets(length)| == |data| ==> data == LengthOctets(length)
  {
    if length >= 128 {
      var octets := data[1..];
      assert data == [data[0]] + octets && data[1..1 + |octets|] == octets;
      BigEndianBound(octets);
      DigitsBound(length, |octets|);
      DigitsValue(length);
      if |Digits(length)| == |octets| { BigEndianInjective(octets, Digits(length)); }
    }
  }

  /** Reading looks only at the data from the offset on. */
  lemma ReadLengthShift(data: Bytes, k: nat, offset: nat)
    requires k <= |data|
    ensures ReadLength(data[k..], offset) ==
            match ReadLength(data, k + offset) case None => None case Some(l) => Some(Length(l.value, l.next - k))
  {
    var tail := data[k..];
    if offset < |tail| && tail[offset] >= 128 {
      var n := tail[offset] - 128;
      if offset + 1 + n <= |tail| {
        assert tail[offset + 1..offset + 1 + n] == data[k + offset + 1..k + offset + 1 + n];
      }
    }
  }
}
