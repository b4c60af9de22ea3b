/**
  Latin-1 conversion of Rust strings: two loops that walk the UTF-8 bytes of a
  string.  `None` stands for a panic.
 */
module Latin1 {
  import opened Bytes
  import opened Ucs2

  /** UTF-8 (section 3 of RFC 3629). */
  function EncodeScalarUtf8(c: Scalar): (bytes: seq<Byte>)
    ensures 1 <= |bytes| <= 4
  {
    if c < 0x80 then [c]
    else if c < 0x800 then [0xc0 + c / 0x40, 0x80 + c % 0x40]
    else if c < 0x10000 then [0xe0 + c / 0x1000, 0x80 + c / 0x40 % 0x40, 0x80 + c % 0x40]
    else [0xf0 + c / 0x40000, 0x80 + c / 0x1000 % 0x40, 0x80 + c / 0x40 % 0x40, 0x80 + c % 0x40]
  }

  function EncodeUtf8(s: seq<Scalar>): (bytes: seq<Byte>)
    ensures |bytes| >= |s|
  {
    if s == [] then [] else EncodeScalarUtf8(s[0]) + EncodeUtf8(s[1..])
  }

  /** The character that an encoding stands for: the leading byte tells its length, the others carry six bits each. */
  function DecodeScalarUtf8(b: seq<Byte>): int
    requires 1 <= |b| <= 4
  {
    var n: seq<int> := b;
    match |b|
    case 1 => n[0]
    case 2 => (n[0] - 0xc0) * 0x40 + (n[1] - 0x80)
    case 3 => (n[0] - 0xe0) * 0x1000 + (n[1] - 0x80) * 0x40 + (n[2] - 0x80)
    case _ => (n[0] - 0xf0) * 0x40000 + (n[1] - 0x80) * 0x1000 + (n[2] - 0x80) * 0x40 + (n[3] - 0x80)
  }

  /** Every character is encoded by the bytes that decode to it, in the length its value calls for. */
  lemma EncodingDecodes(c: Scalar)
    ensures DecodeScalarUtf8(EncodeScalarUtf8(c)) == c
    ensures |EncodeScalarUtf8(c)| == if c < 0x80 then 1 else if c < 0x800 then 2 else if c < 0x10000 then 3 else 4
  {
    SixBitGroups(c);
  }

  /** Cutting off six bits three times. */
  lemma SixBitGroups(c: nat)
    ensures c == (c / 0x40) * 0x40 + c % 0x40
    ensures c / 0x40 == (c / 0x1000) * 0x40 + c / 0x40 % 0x40
    ensures c / 0x1000 == (c / 0x40000) * 0x40 + c / 0x1000 % 0x40
  {
    NestedDivision(c, 0x40);
    NestedDivision(c, 0x1000);
  }

  lemma NestedDivision(c: nat, a: nat)
    requires a == 0x40 || a == 0x1000
    ensures c / a / 0x40 == c / (a * 0x40)
  {
    var q := c / a / 0x40;
    assert c == a * (c / a) + c % a && c / a == 0x40 * q + c / a % 0x40;
  }

  function TwoByteScalar(a: nat, b: nat): nat {
    a % 0x20 * 0x40 + b % 0x40
  }

  /**
    The character at `offset` and the length of its encoding; the masks of the
    leading byte are written as divisions.
   */
  function Latin1FromUtf8AtOffset(bytes: seq<Byte>, offset: nat): (r: Option<(Byte, nat)>)
    requires offset < |bytes|
  {
    if bytes[offset] / 0x80 == 0 then Some((bytes[offset], 1))
    else if bytes[offset] / 0x20 == 6 then
      if offset + 1 >= |bytes| then None
      else
        var ch := TwoByteScalar(bytes[offset], bytes[offset + 1]);
        if ch > 0xff then None else Some((ch, 2))
    else None
  }

  /** The leading byte tells the length class, and two-byte sequences decode to their character. */
  lemma LeadingByte(c: Scalar)
    ensures var b := EncodeScalarUtf8(c);
            && (b[0] / 0x80 == 0 <==> c < 0x80)
            && (b[0] / 0x20 == 6 <==> 0x80 <= c < 0x800)
            && (c < 0x80 ==> b == [c])
            && (0x80 <= c < 0x800 ==> |b| == 2 && TwoByteScalar(b[0], b[1]) == c)
  {
  }

  /** At a character boundary the decoder yields exactly that character, or panics if it is not Latin-1. */
  lemma {:induction false} DecodeAtBoundary(bytes: seq<Byte>, offset: nat, s: seq<Scalar>)
    requires offset <= |bytes| && bytes[offset..] == EncodeUtf8(s) && s != []
    ensures offset < |bytes|
    ensures Latin1FromUtf8AtOffset(bytes, offset) ==
              if s[0] <= 0xff then Some((s[0], |EncodeScalarUtf8(s[0])|)) else None
    ensures offset + |EncodeScalarUtf8(s[0])| <= |bytes|
    ensures bytes[offset + |EncodeScalarUtf8(s[0])|..] == EncodeUtf8(s[1..])
  {
    SuffixParts(bytes, offset, EncodeScalarUtf8(s[0]), EncodeUtf8(s[1..]));
    LeadingByte(s[0]);
  }

  lemma SuffixParts(bytes: seq<Byte>, offset: nat, first: seq<Byte>, tail: seq<Byte>)
    requires offset <= |bytes| && bytes[offset..] == first + tail && first != []
    ensures offset + |first| <= |bytes| && bytes[offset + |first|..] == tail
    ensures bytes[offset] == first[0] && (|first| > 1 ==> bytes[offset + 1] == first[1])
  {
    var rest := bytes[offset..];
    assert bytes[offset] == rest[0];
    assert |first| > 1 ==> bytes[offset + 1] == rest[1];
    assert bytes[offset + |first|..] == rest[|first|..];
  }

  predicate IsLatin1(s: seq<Scalar>) {
    forall i :: 0 <= i < |s| ==> s[i] <= 0xff
  }

  /** `str_num_latin1_chars`. */
  method StrNumLatin1Chars(s: seq<Scalar>) returns (r: Option<nat>)
    ensures r == if IsLatin1(s) then Some(|s|) else None
  {
    var bytes := EncodeUtf8(s);
    var offset, count := 0, 0;
    assert s[0..] == s && bytes[0..] == bytes;
    while offset < |bytes|
      invariant offset <= |bytes| && count <= |s|
      invariant forall i :: 0 <= i < count ==> s[i] <= 0xff
      invariant bytes[offset..] == EncodeUtf8(s[count..])
      decreases |bytes| - offset
    {
      DecodeAtBoundary(bytes, offset, s[count..]);
      var decoded := Latin1FromUtf8AtOffset(bytes, offset);
      if decoded.None? {
        assert s[count] > 0xff;
        return None;
      }
      assert s[count..][1..] == s[count + 1..];
      offset := offset + decoded.value.1;
      count := count + 1;
    }
    assert count == |s|;
    r := Some(count);
  }

  /** `str_to_latin1::<N>`. */
  method StrToLatin1(s: seq<Scalar>, n: nat) returns (r: Option<seq<Byte>>)
    ensures r.Some? <==> (forall i :: 0 <= i < |s| ==> 1 <= s[i] <= 0xff) && n == |s| + 1
    ensures r.Some? ==> r.value == s + [0]
  {
    var bytes := EncodeUtf8(s);
    var output := new Byte[n](_ => 0);
    var inputOffset, outputOffset := 0, 0;
    assert s[0..] == s && bytes[0..] == bytes;
    while inputOffset < |bytes|
      invariant inputOffset <= |bytes| && outputOffset <= |s| && outputOffset <= output.Length
      invariant bytes[inputOffset..] == EncodeUtf8(s[outputOffset..])
      invariant forall i :: 0 <= i < outputOffset ==> 1 <= s[i] <= 0xff && output[i] == s[i]
      invariant forall i :: outputOffset <= i < output.Length ==> output[i] == 0
      decreases |bytes| - inputOffset
    {
      DecodeAtBoundary(bytes, inputOffset, s[outputOffset..]);
      var decoded := Latin1FromUtf8AtOffset(bytes, inputOffset);
      if decoded.None? {
        assert s[outputOffset] > 0xff;
        return None;
      }
      var ch := decoded.value.0;
      if ch == 0 {
        assert s[outputOffset] == 0;
        return None;
      }
      if outputOffset >= output.Length {
        return None;
      }
      assert s[outputOffset..][1..] == s[outputOffset + 1..];
      output[outputOffset] := ch;
      outputOffset := outputOffset + 1;
      inputOffset := inputOffset + decoded.value.1;
    }
    assert outputOffset == |s|;
    if outputOffset + 1 != n {
      return None;
    }
    assert output[..] == s + [0];
    r := Some(output[..]);
  }
}
