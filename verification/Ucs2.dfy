/**
  UCS-2 strings: the validating constructors of `CStr16` and `CString16`, and
  the in-place operations of `CString16`, against plain character sequences.
 */
module Ucs2 {
  import opened Bytes

  type U16 = n: int | 0 <= n <= 0xffff

  predicate IsSurrogate(n: int) {
    0xd800 <= n <= 0xdfff
  }

  /** A Unicode scalar value, Rust's `char`. */
  type Scalar = n: int | 0 <= n <= 0x10ffff && !IsSurrogate(n)

  const NUL_16: U16 := 0

  /** UTF-16 (section 2.1 of RFC 2781). */
  function EncodeScalar(c: Scalar): (units: seq<U16>)
    ensures |units| == if c <= 0xffff then 1 else 2
    ensures c > 0xffff ==> IsSurrogate(units[0]) && IsSurrogate(units[1])
  {
    if c <= 0xffff then [c]
    else [0xd800 + (c - 0x10000) / 0x400, 0xdc00 + (c - 0x10000) % 0x400]
  }

  function EncodeUtf16(s: seq<Scalar>): (units: seq<U16>)
    ensures |units| >= |s|
  {
    if s == [] then [] else EncodeScalar(s[0]) + EncodeUtf16(s[1..])
  }

  /** A pair of surrogates carries ten bits each above the Basic Multilingual Plane. */
  lemma PairDecodes(c: Scalar)
    requires c > 0xffff
    ensures var units: seq<int> := EncodeScalar(c);
            && 0xd800 <= units[0] < 0xdc00 <= units[1] <= 0xdfff
            && 0x10000 + (units[0] - 0xd800) * 0x400 + (units[1] - 0xdc00) == c
  {
  }

  /** `Char16::try_from(u16)`: exactly the code units that are characters on their own. */
  function Char16TryFrom(n: U16): (r: Option<U16>)
    ensures r == if IsSurrogate(n) then None else Some(n)
  {
    if n <= 0x10ffff && !IsSurrogate(n) then
      if n <= 0xffff then Some(n) else None
    else None
  }

  // ----- Null-terminated sequences

  predicate IsSpecial(n: U16) {
    n == NUL_16 || IsSurrogate(n)
  }

  predicate IsText(s: seq<U16>) {
    forall i :: 0 <= i < |s| ==> !IsSpecial(s[i])
  }

  /** Valid UCS-2 with exactly one null, at the end. */
  predicate IsCStr16(s: seq<U16>) {
    |s| > 0 && s[|s| - 1] == NUL_16 && IsText(s[..|s| - 1])
  }

  /** Index of the first null or surrogate; the length if there is none. */
  function FirstSpecial(s: seq<U16>): (k: nat)
    ensures k <= |s|
    ensures IsText(s[..k])
    ensures k < |s| ==> IsSpecial(s[k])
  {
    if s == [] then 0
    else if IsSpecial(s[0]) then 0
    else
      var k := FirstSpecial(s[1..]);
      assert s[..k + 1] == [s[0]] + s[1..][..k];
      k + 1
  }

  lemma {:induction false} FirstSpecialUnique(s: seq<U16>, k: nat)
    requires k <= |s| && IsText(s[..k]) && (k < |s| ==> IsSpecial(s[k]))
    ensures k == FirstSpecial(s)
  {
  }

  datatype UntilNulError = UntilInvalidChar(pos: nat) | NoNul

  datatype WithNulError = InvalidChar(pos: nat) | InteriorNul(pos: nat) | NotNulTerminated

  function UntilNul(codes: seq<U16>): Result<seq<U16>, UntilNulError> {
    var k := FirstSpecial(codes);
    if k == |codes| then Err(NoNul)
    else if codes[k] == NUL_16 then Ok(codes[..k + 1])
    else Err(UntilInvalidChar(k))
  }

  function WithNul(codes: seq<U16>): Result<seq<U16>, WithNulError> {
    var k := FirstSpecial(codes);
    if k == |codes| then Err(NotNulTerminated)
    else if codes[k] != NUL_16 then Err(InvalidChar(k))
    else if k != |codes| - 1 then Err(InteriorNul(k))
    else Ok(codes)
  }

  /** `CStr16::from_u16_until_nul`. */
  method FromU16UntilNul(codes: seq<U16>) returns (r: Result<seq<U16>, UntilNulError>)
    ensures r == UntilNul(codes)
    ensures r.Ok? ==> IsCStr16(r.value) && r.value <= codes
  {
    for pos := 0 to |codes|
      invariant IsText(codes[..pos])
    {
      var chr := Char16TryFrom(codes[pos]);
      if chr.None? {
        FirstSpecialUnique(codes, pos);
        return Err(UntilInvalidChar(pos));
      }
      if chr.value == NUL_16 {
        FirstSpecialUnique(codes, pos);
        assert codes[..pos + 1][..pos] == codes[..pos];
        return Ok(codes[..pos + 1]);
      }
      assert codes[..pos + 1] == codes[..pos] + [codes[pos]];
    }
    assert codes[..|codes|] == codes;
    FirstSpecialUnique(codes, |codes|);
    r := Err(NoNul);
  }

  /** `CStr16::from_u16_with_nul`. */
  method FromU16WithNul(codes: seq<U16>) returns (r: Result<seq<U16>, WithNulError>)
    ensures r == WithNul(codes)
  {
    for pos := 0 to |codes|
      invariant IsText(codes[..pos])
    {
      var chr := Char16TryFrom(codes[pos]);
      if chr == Some(NUL_16) {
        FirstSpecialUnique(codes, pos);
        if pos != |codes| - 1 {
          return Err(InteriorNul(pos));
        } else {
          return Ok(codes);
        }
      } else if chr.None? {
        FirstSpecialUnique(codes, pos);
        return Err(InvalidChar(pos));
      }
      assert codes[..pos + 1] == codes[..pos] + [codes[pos]];
    }
    assert codes[..|codes|] == codes;
    FirstSpecialUnique(codes, |codes|);
    r := Err(NotNulTerminated);
  }

  /** The check accepts exactly the well-terminated strings. */
  lemma WithNulAcceptsExactlyCStr16(codes: seq<U16>)
    ensures WithNul(codes).Ok? <==> IsCStr16(codes)
    ensures WithNul(codes).Ok? ==> WithNul(codes).value == codes
  {
    if IsCStr16(codes) {
      FirstSpecialUnique(codes, |codes| - 1);
    }
  }

  // ----- From Rust strings

  datatype FromStrError = StrInvalidChar | StrInteriorNul

  datatype WithBufError = BufInvalidChar(pos: nat) | BufInteriorNul(pos: nat) | BufTooSmall

  predicate IsBmpText(s: seq<Scalar>) {
    forall i :: 0 <= i < |s| ==> 0 < s[i] <= 0xffff
  }

  /** Index of the first character that is null or outside the Basic Multilingual Plane. */
  function FirstOffending(s: seq<Scalar>): (j: nat)
    ensures j <= |s|
    ensures IsBmpText(s[..j])
    ensures j < |s| ==> s[j] == 0 || s[j] > 0xffff
  {
    if s == [] then 0
    else if s[0] == 0 || s[0] > 0xffff then 0
    else
      var j := FirstOffending(s[1..]);
      assert s[..j + 1] == [s[0]] + s[1..][..j];
      j + 1
  }

  /** The first offending code unit comes from the first offending character, at the same index. */
  lemma {:induction false} OffendingUnit(s: seq<Scalar>)
    ensures var j, units := FirstOffending(s), EncodeUtf16(s);
            && FirstSpecial(units) == j
            && units[..j] == s[..j]
            && (j == |s| ==> |units| == |s|)
            && (j < |s| ==> j < |units| && (units[j] == NUL_16 <==> s[j] == 0))
  {
    if s != [] && 0 < s[0] <= 0xffff {
      OffendingUnit(s[1..]);
      var j, units := FirstOffending(s), EncodeUtf16(s);
      assert units[1..] == EncodeUtf16(s[1..]);
      assert units[..j] == [units[0]] + units[1..][..j - 1];
      assert s[..j] == [s[0]] + s[1..][..j - 1];
    } else if s != [] {
      var units := EncodeUtf16(s);
      assert units[0] == EncodeScalar(s[0])[0];
      FirstSpecialUnique(units, 0);
    }
  }

  /** What converting a Rust string must give: the text and a null, or the kind of the first bad character. */
  function FromStr(s: seq<Scalar>): (r: Result<seq<U16>, FromStrError>) {
    var j := FirstOffending(s);
    if j == |s| then assert s[..j] == s; Ok(s + [NUL_16])
    else if s[j] == 0 then Err(StrInteriorNul)
    else Err(StrInvalidChar)
  }

  /** `CString16::try_from(&str)`. */
  method TryFromStr(input: seq<Scalar>) returns (r: Result<seq<U16>, FromStrError>)
    ensures r == FromStr(input)
    ensures r.Ok? <==> IsBmpText(input)
    ensures r.Ok? ==> IsCStr16(r.value)
  {
    var units := EncodeUtf16(input);
    OffendingUnit(input);
    OffendingDecides(input);
    var output: seq<U16> := [];
    for i := 0 to |units|
      invariant output == units[..i] && IsText(output)
    {
      var c := Char16TryFrom(units[i]);
      if c.None? {
        FirstSpecialUnique(units, i);
        return Err(StrInvalidChar);
      }
      if c.value == NUL_16 {
        FirstSpecialUnique(units, i);
        return Err(StrInteriorNul);
      }
      output := output + [c.value];
    }
    assert units[..|units|] == units;
    FirstSpecialUnique(units, |units|);
    assert units == input;
    r := Ok(output + [NUL_16]);
  }

  lemma OffendingDecides(s: seq<Scalar>)
    ensures FirstOffending(s) == |s| <==> IsBmpText(s)
  {
    assert s[..|s|] == s;
  }

  /** `String::from(&CStr16)`: every code unit of a valid string is a character. */
  function ToStr(s: seq<U16>): (r: seq<Scalar>)
    requires IsCStr16(s)
    ensures r == s[..|s| - 1]
  {
    seq(|s| - 1, i requires 0 <= i < |s| - 1 => assert !IsSpecial(s[..|s| - 1][i]); s[i])
  }

  /** Conversion to UCS-2 and back is the identity where it succeeds, and so is the converse. */
  lemma StrRoundTrip(s: seq<Scalar>, c: seq<U16>)
    ensures FromStr(s).Ok? <==> IsBmpText(s)
    ensures IsBmpText(s) ==> IsCStr16(FromStr(s).value) && ToStr(FromStr(s).value) == s
    ensures IsCStr16(c) ==> FromStr(ToStr(c)) == Ok(c)
  {
    OffendingDecides(s);
    if IsCStr16(c) {
      OffendingDecides(ToStr(c));
      assert c == c[..|c| - 1] + [NUL_16];
    }
  }

  /** `CStr16::from_str_with_buf`: encode into the buffer, then validate it. */
  method FromStrWithBuf(input: seq<Scalar>, buf: array<U16>) returns (r: Result<seq<U16>, WithBufError>)
    modifies buf
    ensures r == Err(BufTooSmall) <==> buf.Length < |EncodeUtf16(input)| + 1
    ensures r != Err(BufTooSmall) ==>
              r == match FromStr(input)
                   case Ok(text) => Ok(text)
                   case Err(StrInvalidChar) => Err(BufInvalidChar(FirstOffending(input)))
                   case Err(StrInteriorNul) => Err(BufInteriorNul(FirstOffending(input)))
    ensures r.Ok? ==> |r.value| <= buf.Length && buf[..|r.value|] == r.value
  {
    var units := EncodeUtf16(input);
    for index := 0 to |units|
      invariant index <= buf.Length
      invariant buf[..index] == units[..index]
    {
      if index >= buf.Length {
        return Err(BufTooSmall);
      }
      buf[index] := units[index];
      assert buf[..index + 1] == units[..index + 1];
    }
    if |units| >= buf.Length {
      return Err(BufTooSmall);
    }
    buf[|units|] := 0;
    assert buf[..|units| + 1] == units + [NUL_16] by {
      assert buf[..|units|] == units[..|units|] == units;
    }
    var checked := FromU16WithNul(buf[..|units| + 1]);
    TerminatedUnits(input);
    match checked {
      case Ok(text) => r := Ok(text);
      case Err(InvalidChar(p)) => r := Err(BufInvalidChar(p));
      case Err(InteriorNul(p)) => r := Err(BufInteriorNul(p));
    }
  }

  /** Validating the encoded text plus a null finds what the direct conversion finds. */
  lemma TerminatedUnits(s: seq<Scalar>)
    ensures WithNul(EncodeUtf16(s) + [NUL_16]) ==
              match FromStr(s)
              case Ok(text) => Ok(text)
              case Err(StrInvalidChar) => Err(InvalidChar(FirstOffending(s)))
              case Err(StrInteriorNul) => Err(InteriorNul(FirstOffending(s)))
  {
    OffendingUnit(s);
    var units := EncodeUtf16(s);
    var k := FirstSpecial(units);
    var all := units + [NUL_16];
    assert all[..k] == units[..k];
    FirstSpecialUnique(all, k);
    if k == |units| {
      assert units[..k] == units && s[..k] == s;
    }
  }

  // ----- The owned string

  /** `CString16::from_char16_with_nul`'s check, on characters that are already valid. */
  method FromChar16WithNul(chars: seq<U16>) returns (r: Result<seq<U16>, WithNulError>)
    requires forall i :: 0 <= i < |chars| ==> !IsSurrogate(chars[i])
    ensures r == WithNul(chars)
  {
    if |chars| == 0 {
      return Err(NotNulTerminated);
    }
    var i := 0;
    while i < |chars| && chars[i] != NUL_16
      invariant i <= |chars|
      invariant IsText(chars[..i])
    {
      assert chars[..i + 1] == chars[..i] + [chars[i]];
      i := i + 1;
    }
    FirstSpecialUnique(chars, i);
    if i == |chars| {
      r := Err(NotNulTerminated);
    } else if i == |chars| - 1 {
      r := Ok(chars);
    } else {
      r := Err(InteriorNul(i));
    }
  }

  function Replaced(s: seq<U16>, search: U16, replace: U16): (r: seq<U16>)
    ensures |r| == |s|
  {
    seq(|s|, i requires 0 <= i < |s| => if s[i] == search then replace else s[i])
  }

  datatype Op = Push(c: U16) | PushStr(str: seq<U16>) | ReplaceChar(search: U16, replace: U16)

  /** Operands as the Rust types and the documented panics demand them. */
  predicate OpOk(op: Op) {
    match op
    case Push(c) => !IsSpecial(c)
    case PushStr(str) => IsCStr16(str)
    case ReplaceChar(search, replace) => !IsSpecial(search) && !IsSpecial(replace)
  }

  /** The same operation on a plain sequence of characters. */
  function Apply(text: seq<U16>, op: Op): (r: seq<U16>)
    requires OpOk(op)
  {
    match op
    case Push(c) => text + [c]
    case PushStr(str) => text + str[..|str| - 1]
    case ReplaceChar(search, replace) => Replaced(text, search, replace)
  }

  function ApplyAll(text: seq<U16>, ops: seq<Op>): (r: seq<U16>)
    requires forall i :: 0 <= i < |ops| ==> OpOk(ops[i])
  {
    if ops == [] then text else Apply(ApplyAll(text, ops[..|ops| - 1]), ops[|ops| - 1])
  }

  class CString16 {
    var chars: seq<U16>

    ghost predicate Valid()
      reads this
    {
      IsCStr16(chars)
    }

    function Text(): (s: seq<U16>)
      requires Valid()
      reads this
    {
      chars[..|chars| - 1]
    }

    constructor ()
      ensures Valid() && Text() == []
    {
      chars := [NUL_16];
    }

    /** `From<&CStr16>`, and the end of both fallible conversions. */
    constructor FromCStr16(s: seq<U16>)
      requires IsCStr16(s)
      ensures Valid() && chars == s
    {
      chars := s;
    }

    /** Overwrite the null, then append a new one.  A null character panics. */
    method Push(c: U16) returns (panicked: bool)
      requires Valid() && !IsSurrogate(c)
      modifies this
      ensures Valid() && (panicked <==> c == NUL_16)
      ensures Text() == if panicked then old(Text()) else old(Text()) + [c]
    {
      if c == NUL_16 {
        return true;
      }
      chars := chars[|chars| - 1 := c];
      chars := chars + [NUL_16];
      assert chars[..|chars| - 1] == old(Text()) + [c];
      panicked := false;
    }

    method PushStr(str: seq<U16>)
      requires Valid() && IsCStr16(str)
      modifies this
      ensures Valid() && Text() == old(Text()) + str[..|str| - 1]
    {
      var slice := str[..|str| - 1];
      for i := 0 to |slice|
        invariant Valid() && Text() == old(Text()) + slice[..i]
      {
        assert !IsSpecial(slice[i]);
        var panicked := Push(slice[i]);
        assert slice[..i + 1] == slice[..i] + [slice[i]];
      }
      assert slice[..|slice|] == slice;
    }

    /** Visits every element, the null included; a null operand panics before any change. */
    method ReplaceChar(search: U16, replace: U16) returns (panicked: bool)
      requires Valid() && !IsSurrogate(search) && !IsSurrogate(replace)
      modifies this
      ensures Valid() && (panicked <==> search == NUL_16 || replace == NUL_16)
      ensures Text() == if panicked then old(Text()) else Replaced(old(Text()), search, replace)
      ensures |Text()| == |old(Text())|
      ensures !panicked ==>
                forall i :: 0 <= i < |Text()| ==>
                  Text()[i] == if old(Text())[i] == search then replace else old(Text())[i]
      ensures !panicked && search != replace ==> search !in Text()
    {
      if search == NUL_16 || replace == NUL_16 {
        return true;
      }
      ghost var replaced := Replaced(chars, search, replace);
      for i := 0 to |chars|
        invariant |chars| == |old(chars)|
        invariant forall k :: 0 <= k < |chars| ==> chars[k] == if k < i then replaced[k] else old(chars)[k]
      {
        if chars[i] == search {
          chars := chars[i := replace];
        }
      }
      assert chars == replaced;
      ReplacedStaysValid(old(chars), search, replace);
      panicked := false;
    }

    /** After any run of operations the string is still accepted by the null check and holds the expected text. */
    method Run(ops: seq<Op>) returns (checked: Result<seq<U16>, WithNulError>)
      requires Valid() && forall i :: 0 <= i < |ops| ==> OpOk(ops[i])
      modifies this
      ensures Valid() && Text() == ApplyAll(old(Text()), ops)
      ensures checked == Ok(chars)
    {
      for i := 0 to |ops|
        invariant Valid() && Text() == ApplyAll(old(Text()), ops[..i])
      {
        assert ops[..i + 1][..i] == ops[..i];
        match ops[i] {
          case Push(c) => var _ := Push(c);
          case PushStr(str) => PushStr(str);
          case ReplaceChar(search, replace) => var _ := ReplaceChar(search, replace);
        }
      }
      assert ops[..|ops|] == ops;
      forall i | 0 <= i < |chars|
        ensures !IsSurrogate(chars[i])
      {
        assert i < |chars| - 1 ==> !IsSpecial(Text()[i]);
      }
      checked := FromChar16WithNul(chars);
      WithNulAcceptsExactlyCStr16(chars);
    }
  }

  lemma ReplacedStaysValid(s: seq<U16>, search: U16, replace: U16)
    requires IsCStr16(s) && !IsSpecial(search) && !IsSpecial(replace)
    ensures IsCStr16(Replaced(s, search, replace))
    ensures Replaced(s, search, replace)[..|s| - 1] == Replaced(s[..|s| - 1], search, replace)
  {
    assert forall i :: 0 <= i < |s| - 1 ==> s[i] == s[..|s| - 1][i];
  }
}
