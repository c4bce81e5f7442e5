/**
 The \u escapes of a JSON string (section 7 of RFC 8259) and the UTF-8 they turn into
 (section 3 of RFC 3629).  Shifts and masks are written as the arithmetic they perform;
 `ContinuationByteBits`, `FirstByteBits` and `SurrogateBits` tie the two forms together.
 */
module Escapes {
  import opened Bytes

  // ----- hexadecimal digits

  predicate IsHex(c: byte) {
    IsDigit(c) || UPPER_A <= c <= UPPER_F || LOWER_A <= c <= LOWER_F
  }

  function HexDigit(c: byte): (v: nat)
    requires IsHex(c)
    ensures v < 16
  {
    if IsDigit(c) then c - ZERO
    else if UPPER_A <= c <= UPPER_F then 10 + c - UPPER_A
    else 10 + c - LOWER_A
  }

  predicate AllHex(s: bytes, p: nat, n: nat)
    requires p + n <= |s|
  {
    forall i :: p <= i < p + n ==> IsHex(s[i])
  }

  /** The number written by the first n of the digits at p. */
  function HexPrefix(s: bytes, p: nat, n: nat): (v: nat)
    requires p + n <= |s| && AllHex(s, p, n)
  {
    if n == 0 then 0 else HexPrefix(s, p, n - 1) * 16 + HexDigit(s[p + n - 1])
  }

  /** Four digits, or 0 when one of them is not a digit. */
  function Hex4(s: bytes, p: nat): (v: nat)
    requires p + 4 <= |s|
    ensures v < 0x1_0000
  {
    if AllHex(s, p, 4) then
      ((HexDigit(s[p]) * 16 + HexDigit(s[p + 1])) * 16 + HexDigit(s[p + 2])) * 16 + HexDigit(s[p + 3])
    else 0
  }

  lemma Hex4IsPrefix(s: bytes, p: nat)
    requires p + 4 <= |s| && AllHex(s, p, 4)
    ensures Hex4(s, p) == HexPrefix(s, p, 4)
  {
    assert HexPrefix(s, p, 1) == HexDigit(s[p]);
    assert HexPrefix(s, p, 2) == HexPrefix(s, p, 1) * 16 + HexDigit(s[p + 1]);
    assert HexPrefix(s, p, 3) == HexPrefix(s, p, 2) * 16 + HexDigit(s[p + 2]);
  }

  method ParseHex4(input: bytes, p: nat) returns (h: nat)
    requires p + 4 <= |input|
    ensures h == Hex4(input, p)
  {
    h := 0;
    for i := 0 to 4
      invariant AllHex(input, p, i)
      invariant h == HexPrefix(input, p, i) * (if 0 < i < 4 then 16 else 1)
    {
      var c := input[p + i];
      if IsDigit(c) {
        h := h + (c - ZERO);
      } else if UPPER_A <= c <= UPPER_F {
        h := h + 10 + (c - UPPER_A);
      } else if LOWER_A <= c <= LOWER_F {
        h := h + 10 + (c - LOWER_A);
      } else {
        return 0;
      }
      assert HexPrefix(input, p, i + 1) == HexPrefix(input, p, i) * 16 + HexDigit(c);
      if i < 3 {
        h := h * 16;
      }
    }
    Hex4IsPrefix(input, p);
  }

  // ----- UTF-8

  predicate IsScalar(cp: nat) {
    cp < 0xD800 || 0xE000 <= cp < 0x11_0000
  }

  /** The table of section 3 of RFC 3629. */
  function Utf8(cp: nat): (r: bytes)
    requires cp < 0x11_0000
    ensures 1 <= |r| <= 4
  {
    if cp < 0x80 then [cp]
    else if cp < 0x800 then [0xC0 + cp / 64, 0x80 + cp % 64]
    else if cp < 0x1_0000 then [0xE0 + cp / 4096, 0x80 + cp / 64 % 64, 0x80 + cp % 64]
    else [0xF0 + cp / 262144, 0x80 + cp / 4096 % 64, 0x80 + cp / 64 % 64, 0x80 + cp % 64]
  }

  /** How many bytes the first byte of an encoding announces. */
  function Utf8Length(first: byte): nat {
    if first < 0x80 then 1 else if first < 0xE0 then 2 else if first < 0xF0 then 3 else 4
  }

  function Payload(c: int, mark: int): int {
    c - mark
  }

  /** The code point at the front of a text that begins with an encoding. */
  function Utf8Decode(s: bytes): (cp: int)
    requires s != [] && Utf8Length(s[0]) <= |s|
  {
    match Utf8Length(s[0])
    case 1 => s[0]
    case 2 => Payload(s[0], 0xC0) * 64 + Payload(s[1], 0x80)
    case 3 => (Payload(s[0], 0xE0) * 64 + Payload(s[1], 0x80)) * 64 + Payload(s[2], 0x80)
    case _ => ((Payload(s[0], 0xF0) * 64 + Payload(s[1], 0x80)) * 64 + Payload(s[2], 0x80)) * 64 + Payload(s[3], 0x80)
  }

  /** The encoding can be read back, even with other text behind it. */
  lemma Utf8RoundTrip(cp: nat, rest: bytes)
    requires cp < 0x11_0000
    ensures var s := Utf8(cp) + rest;
            && Utf8Length(s[0]) == |Utf8(cp)| <= |s|
            && Utf8Decode(s) == cp
  {
    assert cp / 64 == cp / 4096 * 64 + cp / 64 % 64;
    assert cp / 4096 == cp / 262144 * 64 + cp / 4096 % 64;
    var u := Utf8(cp);
    assert forall i :: 0 <= i < |u| ==> (u + rest)[i] == u[i];
  }

  /** Distinct code points have distinct encodings, and none begins another. */
  lemma Utf8Injective(a: nat, b: nat)
    requires a < 0x11_0000 && b < 0x11_0000
    ensures Utf8(a) <= Utf8(b) ==> a == b
  {
    Utf8RoundTrip(a, Utf8(b)[if |Utf8(a)| <= |Utf8(b)| then |Utf8(a)| else 0..]);
    Utf8RoundTrip(b, []);
    if Utf8(a) <= Utf8(b) {
      assert Utf8(a) + Utf8(b)[|Utf8(a)|..] == Utf8(b) + [];
    }
  }

  /** (c | 0x80) & 0xBF keeps the low six bits under the mark of a continuation byte. */
  lemma ContinuationByteBits(c: bv32)
    ensures (c | 0x80) & 0xBF == 0x80 + c % 64
    ensures c >> 6 == c / 64
  {}

  /** The mark of a first byte and what is left of the code point share no bit; one byte alone has no mark. */
  lemma FirstByteBits(c: bv32)
    ensures c < 0x80 ==> c & 0x7F == c
    ensures c < 0x20 ==> (c | 0xC0) & 0xFF == c + 0xC0
    ensures c < 0x10 ==> (c | 0xE0) & 0xFF == c + 0xE0
    ensures c < 0x08 ==> (c | 0xF0) & 0xFF == c + 0xF0
  {}

  /** The join of two surrogates is an addition: the two halves share no bit. */
  lemma SurrogateBits(first: bv32, second: bv32)
    ensures ((first & 0x3FF) << 10) | (second & 0x3FF) == (first % 1024) * 1024 + second % 1024
  {}

  // ----- one \u escape

  datatype Literal = Rejected | Accepted(consumed: nat, codepoint: nat)

  /** What the escape at p, in a string body ending at end, stands for. */
  function Utf16Literal(s: bytes, p: nat, end: nat): (r: Literal)
    requires p <= end <= |s|
    ensures r.Accepted? ==> IsScalar(r.codepoint) && (r.consumed == 6 || r.consumed == 12) && p + r.consumed <= end
    ensures r.Accepted? ==> (r.consumed == 12 <==> r.codepoint >= 0x1_0000)
  {
    if end - p < 6 then Rejected
    else
      var first := Hex4(s, p + 2);
      if 0xDC00 <= first <= 0xDFFF then Rejected
      else if 0xD800 <= first <= 0xDBFF then
        if end - (p + 6) < 6 || s[p + 6] != BACKSLASH || s[p + 7] != LOWER_U then Rejected
        else
          var second := Hex4(s, p + 8);
          if second < 0xDC00 || second > 0xDFFF then Rejected
          else Accepted(12, 0x1_0000 + (first % 1024) * 1024 + second % 1024)
      else Accepted(6, first)
  }

  /**
   utf16_literal_to_utf8: decodes the escape at p and writes its UTF-8 from output[o] on,
   last byte first.
   */
  method Utf16LiteralToUtf8(input: bytes, p: nat, end: nat, output: array<byte>, o: nat)
    returns (sequenceLength: nat, o': nat)
    requires p <= end <= |input|
    requires Utf16Literal(input, p, end).Accepted? ==>
               o + |Utf8(Utf16Literal(input, p, end).codepoint)| <= output.Length
    modifies output
    ensures var r := Utf16Literal(input, p, end);
            if r.Rejected? then
              sequenceLength == 0 && o' == o && output[..] == old(output[..])
            else
              && sequenceLength == r.consumed
              && o' == o + |Utf8(r.codepoint)|
              && output[..] == old(output[..o]) + Utf8(r.codepoint) + old(output[o'..])
  {
    hide Utf8, Hex4;
    ghost var r := Utf16Literal(input, p, end);
    if end - p < 6 {
      return 0, o;
    }
    var first := ParseHex4(input, p + 2);
    if 0xDC00 <= first <= 0xDFFF {
      return 0, o;
    }
    var codepoint: nat;
    if 0xD800 <= first <= 0xDBFF {
      var second := p + 6;
      sequenceLength := 12;
      if end - second < 6 {
        return 0, o;
      }
      if input[second] != BACKSLASH || input[second + 1] != LOWER_U {
        return 0, o;
      }
      var secondCode := ParseHex4(input, second + 2);
      if secondCode < 0xDC00 || secondCode > 0xDFFF {
        return 0, o;
      }
      codepoint := 0x1_0000 + ((first % 1024) * 1024 + secondCode % 1024);
    } else {
      sequenceLength := 6;
      codepoint := first;
    }
    assert codepoint == r.codepoint;
    o' := EncodeUtf8(codepoint, output, o);
  }

  /** The code point after k rounds of the encoding loop. */
  function Shifted(cp: nat, k: nat): nat {
    if k == 0 then cp else Shifted(cp, k - 1) / 64
  }

  /** (unsigned char)((codepoint | 0x80) & 0xBF) */
  function ContinuationByte(codepoint: nat): byte {
    0x80 + codepoint % 64
  }

  /** The first byte of an encoding of the given length: a mark over what is left of the code point. */
  function FirstByte(codepoint: nat, length: nat): int {
    codepoint + match length case 2 => 0xC0 case 3 => 0xE0 case 4 => 0xF0 case _ => 0
  }

  /** The bound under which that addition is what FirstByteBits says it is. */
  function FirstByteRoom(length: nat): nat {
    match length case 1 => 0x80 case 2 => 0x20 case 3 => 0x10 case _ => 0x08
  }

  lemma Utf8Shape(cp: nat)
    requires cp < 0x11_0000
    ensures var u := Utf8(cp);
            && FirstByte(Shifted(cp, |u| - 1), |u|) == u[0]
            && Shifted(cp, |u| - 1) < FirstByteRoom(|u|)
            && forall j :: 1 <= j < |u| ==> ContinuationByte(Shifted(cp, |u| - 1 - j)) == u[j]
  {
    assert Shifted(cp, 1) == cp / 64;
    assert Shifted(cp, 2) == Shifted(cp, 1) / 64 == cp / 4096;
    assert Shifted(cp, 3) == Shifted(cp, 2) / 64 == cp / 262144;
  }

  /** Chooses the length of the encoding from the code point, then writes it. */
  method EncodeUtf8(cp: nat, output: array<byte>, o: nat) returns (o': nat)
    requires cp < 0x11_0000 && o + |Utf8(cp)| <= output.Length
    modifies output
    ensures o' == o + |Utf8(cp)|
    ensures output[..] == old(output[..o]) + Utf8(cp) + old(output[o'..])
  {
    var length :=
      if cp < 0x80 then 1 else if cp < 0x800 then 2 else if cp < 0x1_0000 then 3 else 4;
    Utf8Shape(cp);
    WriteEncoding(cp, length, output, o);
    Overwritten(old(output[..]), output[..], o, Utf8(cp));
    o' := o + length;
  }

  /** The encoding loop of utf16_literal_to_utf8: continuation bytes from the last to the first. */
  method WriteEncoding(cp: nat, length: nat, output: array<byte>, o: nat)
    requires length > 0 && o + length <= output.Length && FirstByte(Shifted(cp, length - 1), length) < 256
    modifies output
    ensures forall j :: 0 <= j < output.Length && !(o <= j < o + length) ==> output[j] == old(output[j])
    ensures output[o] == FirstByte(Shifted(cp, length - 1), length)
    ensures forall j :: o < j < o + length ==> output[j] == ContinuationByte(Shifted(cp, length - 1 - (j - o)))
  {
    var codepoint := cp;
    var position := length - 1;
    while position > 0
      invariant 0 <= position < length
      invariant forall j :: 0 <= j < output.Length && !(o + position < j < o + length) ==> output[j] == old(output[j])
      invariant forall j :: o + position < j < o + length ==>
                  output[j] == ContinuationByte(Shifted(cp, length - 1 - (j - o)))
      invariant codepoint == Shifted(cp, length - 1 - position)
    {
      output[o + position] := ContinuationByte(codepoint);
      codepoint := codepoint / 64;
      position := position - 1;
    }
    output[o] := FirstByte(codepoint, length);
  }

  // ----- which texts are escapes of which code points

  /** Four hexadecimal digits at p, in either case, with value v. */
  predicate WrittenInHex(s: bytes, p: nat, v: nat) {
    p + 4 <= |s| && AllHex(s, p, 4) && Hex4(s, p) == v
  }

  predicate EscapeAt(s: bytes, p: nat, v: nat) {
    p + 6 <= |s| && s[p] == BACKSLASH && s[p + 1] == LOWER_U && WrittenInHex(s, p + 2, v)
  }

  ghost predicate LowSurrogateAt(s: bytes, p: nat) {
    exists low :: 0xDC00 <= low <= 0xDFFF && EscapeAt(s, p, low)
  }

  /** Section 7 of RFC 8259: one escape, or a surrogate pair beyond the basic plane. */
  predicate EscapeOf(s: bytes, p: nat, cp: nat) {
    if cp < 0x1_0000 then EscapeAt(s, p, cp)
    else
      && cp < 0x11_0000
      && EscapeAt(s, p, 0xD800 + (cp - 0x1_0000) / 1024)
      && EscapeAt(s, p + 6, 0xDC00 + (cp - 0x1_0000) % 1024)
  }

  lemma HalvesJoin(c: nat)
    requires c < 0x10_0000
    ensures var high, low := 0xD800 + c / 1024, 0xDC00 + c % 1024;
            high <= 0xDBFF && low <= 0xDFFF && (high % 1024) * 1024 + low % 1024 == c
  {
    var q, r := c / 1024, c % 1024;
    assert (0xD800 + q) % 1024 == q;
    assert (0xDC00 + r) % 1024 == r;
  }

  lemma JoinSplits(high: nat, low: nat)
    requires 0xD800 <= high <= 0xDBFF && 0xDC00 <= low <= 0xDFFF
    ensures var c := (high % 1024) * 1024 + low % 1024;
            high == 0xD800 + c / 1024 && low == 0xDC00 + c % 1024
  {
    assert high == 0xD800 + high % 1024;
    assert low == 0xDC00 + low % 1024;
  }

  /** Every scalar value, written as section 7 asks, is decoded and nothing else is consumed. */
  lemma ScalarEscapeAccepted(s: bytes, p: nat, end: nat, cp: nat)
    requires IsScalar(cp) && EscapeOf(s, p, cp)
    requires p + (if cp < 0x1_0000 then 6 else 12) <= end <= |s|
    ensures Utf16Literal(s, p, end) == Accepted(if cp < 0x1_0000 then 6 else 12, cp)
  {
    if cp >= 0x1_0000 {
      HalvesJoin(cp - 0x1_0000);
    }
  }

  /** And back: what is accepted with proper digits is the escape of the scalar it yields. */
  lemma AcceptedIsScalarEscape(s: bytes, p: nat, end: nat)
    requires p + 6 <= end <= |s| && s[p] == BACKSLASH && s[p + 1] == LOWER_U && AllHex(s, p + 2, 4)
    requires Utf16Literal(s, p, end).Accepted?
    ensures EscapeOf(s, p, Utf16Literal(s, p, end).codepoint)
  {
    var first := Hex4(s, p + 2);
    if 0xD800 <= first <= 0xDBFF {
      JoinSplits(first, Hex4(s, p + 8));
    }
  }

  /** An escape with proper digits is refused exactly when it is an unpaired surrogate. */
  lemma RejectedIffUnpaired(s: bytes, p: nat, end: nat)
    requires p + 6 <= end <= |s| && AllHex(s, p + 2, 4)
    ensures Utf16Literal(s, p, end).Rejected? <==>
            var first := Hex4(s, p + 2);
            || 0xDC00 <= first <= 0xDFFF
            || (0xD800 <= first <= 0xDBFF &&
                !(p + 12 <= end && LowSurrogateAt(s, p + 6)))
  {
    var first := Hex4(s, p + 2);
    if 0xD800 <= first <= 0xDBFF && p + 12 <= end {
      var low := Hex4(s, p + 8);
      if 0xDC00 <= low <= 0xDFFF && s[p + 6] == BACKSLASH && s[p + 7] == LOWER_U {
        assert EscapeAt(s, p + 6, low);
      }
    }
  }

  /** Digits that are no digits do not make the escape fail: it stands for U+0000. */
  lemma BadDigitsReadAsNul(s: bytes, p: nat, end: nat)
    requires p + 6 <= end <= |s| && !AllHex(s, p + 2, 4)
    ensures Utf16Literal(s, p, end) == Accepted(6, 0) && Utf8(0) == [NUL]
  {}
}
