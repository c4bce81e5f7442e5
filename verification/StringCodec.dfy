/**
 The text of a JSON string: how parse_string measures and decodes it and how
 print_string_ptr measures and writes it.
 */
module StringCodec {
  import opened Bytes
  import opened Escapes
  import opened Wrappers

  // ----- parse_string, first loop: find the closing quote, count what is skipped

  datatype Scan = Unterminated | Closed(end: nat, skipped: nat)

  function ScanFrom(s: bytes, p: nat): (r: Scan)
    requires p <= |s|
    ensures r.Closed? ==> p <= r.end < |s| && s[r.end] == QUOTE
    decreases |s| - p
  {
    if p == |s| then Unterminated
    else if s[p] == QUOTE then Closed(p, 0)
    else if s[p] == BACKSLASH then
      if p + 1 >= |s| then Unterminated else
        var r := ScanFrom(s, p + 2);
        if r.Closed? then Closed(r.end, r.skipped + 1) else r
    else ScanFrom(s, p + 1)
  }

  method ScanString(input: bytes, start: nat) returns (r: Scan)
    requires start <= |input|
    ensures r == ScanFrom(input, start)
  {
    var inputEnd, skipped := start, 0;
    while inputEnd < |input| && input[inputEnd] != QUOTE
      invariant start <= inputEnd <= |input|
      invariant var rest := ScanFrom(input, inputEnd);
                ScanFrom(input, start) ==
                if rest.Closed? then Closed(rest.end, rest.skipped + skipped) else rest
    {
      if input[inputEnd] == BACKSLASH {
        if inputEnd + 1 >= |input| {
          return Unterminated;
        }
        skipped := skipped + 1;
        inputEnd := inputEnd + 1;
      }
      inputEnd := inputEnd + 1;
    }
    if inputEnd >= |input| {
      return Unterminated;
    }
    return Closed(inputEnd, skipped);
  }

  // ----- parse_string, second loop: decode

  datatype Decoding = Malformed(at: nat) | Decoded(out: bytes)

  function Prepend(head: bytes, rest: Decoding): Decoding {
    if rest.Decoded? then Decoded(head + rest.out) else rest
  }

  predicate IsSimpleEscape(c: byte) {
    || c == LOWER_B || c == LOWER_F || c == LOWER_N || c == LOWER_R || c == LOWER_T
    || c == QUOTE || c == BACKSLASH || c == SLASH
  }

  function SimpleEscape(c: byte): byte
    requires IsSimpleEscape(c)
  {
    if c == LOWER_B then BACKSPACE
    else if c == LOWER_F then FORMFEED
    else if c == LOWER_N then NEWLINE
    else if c == LOWER_R then RETURN
    else if c == LOWER_T then TAB
    else c
  }

  datatype Step = Refused | Step(width: nat, out: bytes)

  /** One round of the decoding loop at p: how far it moves and what it writes. */
  function StepAt(s: bytes, p: nat, end: nat): (r: Step)
    requires p < end < |s|
    ensures r.Step? ==> 0 < r.width && p + r.width <= end + 1
  {
    if s[p] != BACKSLASH then Step(1, [s[p]])
    else if IsSimpleEscape(s[p + 1]) then Step(2, [SimpleEscape(s[p + 1])])
    else if s[p + 1] == LOWER_U && Utf16Literal(s, p, end).Accepted? then
      var r := Utf16Literal(s, p, end);
      Step(r.consumed, Utf8(r.codepoint))
    else Refused
  }

  /**
   The bytes the text from p up to the closing quote at end stands for.  The walk may step
   one past end: a misaligned \u escape can leave it on a backslash right before the quote.
   */
  function Decode(s: bytes, p: nat, end: nat): (r: Decoding)
    requires p <= end + 1 <= |s|
    ensures r.Malformed? ==> p <= r.at < end
    decreases end + 1 - p
  {
    if p >= end then Decoded([])
    else
      var step := StepAt(s, p, end);
      if step.Refused? then Malformed(p) else Prepend(step.out, Decode(s, p + step.width, end))
  }

  // ----- when the decoded bytes contain the terminator of a C string

  /** A raw NUL, or a \u escape whose four digits are all zero or not all digits. */
  predicate NulMetAt(s: bytes, p: nat, end: nat)
    requires p < end < |s|
  {
    || s[p] == NUL
    || (s[p] == BACKSLASH && s[p + 1] == LOWER_U && p + 6 <= end &&
        (!AllHex(s, p + 2, 4) || forall i :: p + 2 <= i < p + 6 ==> s[i] == ZERO))
  }

  /** The walk of the decoding loop meets one of them. */
  predicate NulMet(s: bytes, p: nat, end: nat)
    requires p <= end + 1 <= |s|
    decreases end + 1 - p
  {
    p < end &&
    (NulMetAt(s, p, end) ||
     (StepAt(s, p, end).Step? && NulMet(s, p + StepAt(s, p, end).width, end)))
  }

  lemma Hex4IsZero(s: bytes, p: nat)
    requires p + 4 <= |s|
    ensures Hex4(s, p) == 0 <==> !AllHex(s, p, 4) || forall i :: p <= i < p + 4 ==> s[i] == ZERO
  {
    if AllHex(s, p, 4) {
      assert IsHex(s[p]) && IsHex(s[p + 1]) && IsHex(s[p + 2]) && IsHex(s[p + 3]);
    }
  }

  lemma Utf8HasNul(cp: nat)
    requires cp < 0x11_0000
    ensures NUL in Utf8(cp) <==> cp == 0
  {}

  lemma StepWritesNul(s: bytes, p: nat, end: nat)
    requires p < end < |s| && StepAt(s, p, end).Step?
    ensures NUL in StepAt(s, p, end).out <==> NulMetAt(s, p, end)
  {
    hide Hex4, Utf8;
    if s[p] == BACKSLASH && !IsSimpleEscape(s[p + 1]) {
      Hex4IsZero(s, p + 2);
      Utf8HasNul(Utf16Literal(s, p, end).codepoint);
    }
  }

  /** What is decoded contains a NUL exactly when the walk meets one. */
  lemma {:induction false} DecodedHasNulIff(s: bytes, p: nat, end: nat)
    requires p <= end + 1 <= |s| && Decode(s, p, end).Decoded?
    ensures NulFree(Decode(s, p, end).out) <==> !NulMet(s, p, end)
    decreases end + 1 - p
  {
    hide StepAt, NulMetAt;
    if p < end {
      StepWritesNul(s, p, end);
      DecodedHasNulIff(s, p + StepAt(s, p, end).width, end);
    }
  }

  // ----- the room left in the output: both loops walk the same text with different strides

  /** Backslashes at or after p that the scan starting at q counts as skipped. */
  function Skips(s: bytes, q: nat, p: nat): nat
    requires q <= |s|
    decreases |s| - q
  {
    if q == |s| || s[q] == QUOTE then 0
    else if s[q] == BACKSLASH then
      if q + 1 >= |s| then 0
      else (if q >= p then 1 else 0) + Skips(s, q + 2, p)
    else Skips(s, q + 1, p)
  }

  lemma {:induction false} SkipsTotal(s: bytes, q: nat)
    requires q <= |s| && ScanFrom(s, q).Closed?
    ensures forall p: nat :: p <= q ==> Skips(s, q, p) == ScanFrom(s, q).skipped
    ensures forall p: nat :: p >= ScanFrom(s, q).end ==> Skips(s, q, p) == 0
    decreases |s| - q
  {
    if s[q] != QUOTE {
      SkipsTotal(s, if s[q] == BACKSLASH then q + 2 else q + 1);
    }
  }

  /** In a window of n bytes the scan skips at most every other one. */
  lemma {:induction false} SkipsWindow(s: bytes, q: nat, p: nat, n: nat)
    requires q <= |s|
    ensures Skips(s, q, p + n) <= Skips(s, q, p) <= Skips(s, q, p + n) + (n + 1) / 2
    ensures q > p ==> Skips(s, q, p) <= Skips(s, q, p + n) + (if q < p + n then (p + n - q + 1) / 2 else 0)
    decreases |s| - q
  {
    if q == |s| || s[q] == QUOTE || (s[q] == BACKSLASH && q + 1 >= |s|) {
    } else {
      SkipsWindow(s, if s[q] == BACKSLASH then q + 2 else q + 1, p, n);
    }
  }

  /** A byte that is no backslash is never skipped. */
  lemma {:induction false} SkipsOverPlain(s: bytes, q: nat, p: nat)
    requires q <= |s| && p < |s| && s[p] != BACKSLASH
    ensures Skips(s, q, p) == Skips(s, q, p + 1)
    decreases |s| - q
  {
    if q == |s| || s[q] == QUOTE || (s[q] == BACKSLASH && q + 1 >= |s|) {
    } else {
      SkipsOverPlain(s, if s[q] == BACKSLASH then q + 2 else q + 1, p);
    }
  }

  /** What may still be written once the decoding stands at p. */
  ghost function Room(s: bytes, start: nat, end: nat, p: nat): int
    requires start <= |s|
  {
    end + 1 - p - Skips(s, start, p)
  }

  lemma RoomIsNeverNegative(s: bytes, start: nat, p: nat)
    requires start <= |s| && ScanFrom(s, start).Closed? && p <= ScanFrom(s, start).end + 1
    ensures Room(s, start, ScanFrom(s, start).end, p) >= 0
  {
    var end := ScanFrom(s, start).end;
    SkipsTotal(s, start);
    SkipsWindow(s, start, p, end + 1 - p);
  }

  /** A round writes no more than the room it gives up. */
  lemma StepFits(s: bytes, start: nat, p: nat)
    requires start <= |s| && ScanFrom(s, start).Closed? && p < ScanFrom(s, start).end
    ensures var end := ScanFrom(s, start).end;
            var step := StepAt(s, p, end);
            step.Step? ==>
              0 <= Room(s, start, end, p + step.width) <= Room(s, start, end, p) - |step.out|
  {
    var step := StepAt(s, p, ScanFrom(s, start).end);
    if step.Step? {
      RoomIsNeverNegative(s, start, p + step.width);
      if step.width == 1 {
        SkipsOverPlain(s, start, p);
      } else {
        SkipsWindow(s, start, p, step.width);
      }
    }
  }

  /** Whatever is decoded fits, with its terminator, in what the scan made parse_string allocate. */
  lemma {:induction false} DecodedFits(s: bytes, start: nat, p: nat)
    requires start <= |s| && ScanFrom(s, start).Closed? && p <= ScanFrom(s, start).end + 1
    ensures var end := ScanFrom(s, start).end;
            Decode(s, p, end).Decoded? ==> |Decode(s, p, end).out| <= Room(s, start, end, p)
    decreases |s| - p
  {
    var end := ScanFrom(s, start).end;
    RoomIsNeverNegative(s, start, p);
    if p < end {
      StepFits(s, start, p);
      var step := StepAt(s, p, end);
      if step.Step? {
        DecodedFits(s, start, p + step.width);
      }
    }
  }

  /** The size parse_string asks for: the span from the opening quote, less the skipped bytes. */
  function AllocationLength(start: nat, scan: Scan): (n: int)
    requires scan.Closed?
  {
    scan.end - (start - 1) - scan.skipped
  }

  lemma AllocationHoldsString(s: bytes, start: nat)
    requires 1 <= start <= |s| && ScanFrom(s, start).Closed?
    ensures var scan := ScanFrom(s, start);
            && 0 <= Room(s, start, scan.end, start) == AllocationLength(start, scan)
            && (Decode(s, start, scan.end).Decoded? ==>
                  |Decode(s, start, scan.end).out| + 1 <= AllocationLength(start, scan) + 1)
  {
    SkipsTotal(s, start);
    RoomIsNeverNegative(s, start, start);
    DecodedFits(s, start, start);
  }

  /** The decoding loop of parse_string, writing into a buffer of the computed size. */
  method DecodeString(input: bytes, start: nat, scan: Scan)
    returns (r: Decoding, stopped: nat)
    requires 1 <= start <= |input| && scan.Closed? && scan == ScanFrom(input, start)
    ensures r == Decode(input, start, scan.end)
    ensures r.Malformed? ==> stopped == r.at
  {
    var end := scan.end;
    AllocationHoldsString(input, start);
    var output := new byte[AllocationLength(start, scan) + 1];
    var p, o := start, 0;
    ghost var whole := Decode(input, start, end);
    while p < end
      invariant start <= p <= end + 1 && 0 <= o < output.Length
      invariant o + Room(input, start, end, p) <= output.Length - 1
      invariant whole == Prepend(output[..o], Decode(input, p, end))
    {
      var sequenceLength, o' := DecodeOne(input, start, scan, p, output, o, end);
      if sequenceLength == 0 {
        return Malformed(p), p;
      }
      p, o := p + sequenceLength, o';
    }
    output[o] := NUL;
    r := Decoded(output[..o]);
    stopped := p;
  }

  /** One round of that loop; sequenceLength is 0 when the escape is refused. */
  method DecodeOne(input: bytes, start: nat, ghost scan: Scan, p: nat, output: array<byte>, o: nat, end: nat)
    returns (sequenceLength: nat, o': nat)
    requires 1 <= start <= p < end < |input| && scan.Closed? && scan == ScanFrom(input, start) && end == scan.end
    requires o + Room(input, start, end, p) <= output.Length - 1
    modifies output
    ensures sequenceLength == 0 ==> Decode(input, p, end) == Malformed(p)
    ensures sequenceLength != 0 ==>
              && p + sequenceLength <= end + 1 && o < o' < output.Length
              && o' + Room(input, start, end, p + sequenceLength) <= output.Length - 1
              && Prepend(old(output[..o]), Decode(input, p, end)) ==
                 Prepend(output[..o'], Decode(input, p + sequenceLength, end))
  {
    RoomIsNeverNegative(input, start, p);
    StepFits(input, start, p);
    DecodeStep(input, p, end, output[..o]);
    if input[p] != BACKSLASH {
      Put(output, o, input[p]);
      return 1, o + 1;
    }
    if IsSimpleEscape(input[p + 1]) {
      Put(output, o, SimpleEscape(input[p + 1]));
      return 2, o + 1;
    }
    if input[p + 1] == LOWER_U {
      sequenceLength, o' := Utf16LiteralToUtf8(input, p, end, output, o);
      if sequenceLength != 0 {
        assert output[..o'] == old(output[..o]) + Utf8(Utf16Literal(input, p, end).codepoint);
      }
      return;
    }
    return 0, o;
  }

  method Put(output: array<byte>, o: nat, c: byte)
    requires o < output.Length
    modifies output
    ensures output[..o + 1] == old(output[..o]) + [c]
  {
    output[o] := c;
  }

  /** One round of the decoding, with what was written so far in front. */
  lemma DecodeStep(s: bytes, p: nat, end: nat, done: bytes)
    requires p < end < |s|
    ensures var step := StepAt(s, p, end);
            if step.Refused? then Decode(s, p, end) == Malformed(p)
            else Prepend(done, Decode(s, p, end)) == Prepend(done + step.out, Decode(s, p + step.width, end))
  {
    var step := StepAt(s, p, end);
    if step.Step? {
      PrependTwice(done, step.out, Decode(s, p + step.width, end));
    }
  }

  lemma PrependTwice(a: bytes, b: bytes, rest: Decoding)
    ensures Prepend(a, Prepend(b, rest)) == Prepend(a + b, rest)
  {
    if rest.Decoded? {
      assert a + (b + rest.out) == a + b + rest.out;
    }
  }

  // ----- print_string_ptr: what is written

  /** One lower-case hexadecimal digit, as printf writes it. */
  function HexChar(v: nat): (c: byte)
    requires v < 16
    ensures IsHex(c) && HexDigit(c) == v
  {
    if v < 10 then ZERO + v else LOWER_A + v - 10
  }

  /** The letter of a two-byte escape, or None when the byte has none. */
  function ShortEscape(c: byte): (r: Option<byte>)
    ensures r.Some? ==> IsSimpleEscape(r.value) && SimpleEscape(r.value) == c
  {
    if c == BACKSLASH || c == QUOTE then Some(c)
    else if c == BACKSPACE then Some(LOWER_B)
    else if c == FORMFEED then Some(LOWER_F)
    else if c == NEWLINE then Some(LOWER_N)
    else if c == RETURN then Some(LOWER_R)
    else if c == TAB then Some(LOWER_T)
    else None
  }

  function Escape(c: byte): (r: bytes)
    ensures 1 <= |r| <= 6
  {
    if c > 31 && c != QUOTE && c != BACKSLASH then [c]
    else if ShortEscape(c).Some? then [BACKSLASH, ShortEscape(c).value]
    else [BACKSLASH, LOWER_U, ZERO, ZERO, HexChar(c / 16), HexChar(c % 16)]
  }

  function Escaped(s: bytes): bytes {
    if s == [] then [] else Escape(s[0]) + Escaped(s[1..])
  }

  function Quoted(s: bytes): bytes {
    [QUOTE] + Escaped(s) + [QUOTE]
  }

  /** What the counting loop of print_string_ptr adds for one byte. */
  function EscapeCharactersOf(c: byte): nat {
    if c == QUOTE || c == BACKSLASH || c == BACKSPACE || c == FORMFEED || c == NEWLINE || c == RETURN || c == TAB then 1
    else if c < 32 then 5
    else 0
  }

  function EscapeCharacters(s: bytes): nat {
    if s == [] then 0 else EscapeCharactersOf(s[0]) + EscapeCharacters(s[1..])
  }

  /** The count is the exact length: nothing is left over and nothing is missing. */
  lemma {:induction false} EscapedLength(s: bytes)
    ensures |Escaped(s)| == |s| + EscapeCharacters(s)
    ensures EscapeCharacters(s) == 0 ==> Escaped(s) == s
  {
    if s != [] {
      EscapedLength(s[1..]);
      assert s == [s[0]] + s[1..];
    }
  }

  lemma {:induction false} EscapedConcat(a: bytes, b: bytes)
    ensures Escaped(a + b) == Escaped(a) + Escaped(b)
    ensures EscapeCharacters(a + b) == EscapeCharacters(a) + EscapeCharacters(b)
  {
    if a == [] {
      assert a + b == b;
    } else {
      EscapedConcat(a[1..], b);
      assert (a + b)[0] == a[0] && (a + b)[1..] == a[1..] + b;
      ConcatAssociates(Escape(a[0]), Escaped(a[1..]), Escaped(b));
    }
  }

  lemma EscapedOne(c: byte)
    ensures Escaped([c]) == Escape(c) && EscapeCharacters([c]) == EscapeCharactersOf(c)
  {
    assert Escape(c) + [] == Escape(c);
  }

  /** One more byte of the input, for a loop that walks it from the front. */
  lemma EscapedNext(s: bytes, i: nat)
    requires i < |s|
    ensures Escaped(s[..i + 1]) == Escaped(s[..i]) + Escape(s[i])
    ensures EscapeCharacters(s[..i + 1]) == EscapeCharacters(s[..i]) + EscapeCharactersOf(s[i])
    ensures |Escaped(s[..i + 1])| <= |Escaped(s)|
  {
    assert s[..i + 1] == s[..i] + [s[i]];
    EscapedConcat(s[..i], [s[i]]);
    EscapedOne(s[i]);
    assert s == s[..i + 1] + s[i + 1..];
    EscapedConcat(s[..i + 1], s[i + 1..]);
  }

  lemma {:induction false} EscapedHasNoNul(s: bytes)
    ensures NulFree(Escaped(s)) && NulFree(Quoted(s))
  {
    if s != [] {
      EscapedHasNoNul(s[1..]);
      var e := Escape(s[0]);
      assert NUL !in e;
    }
  }

  // ----- reading back what was written

  /** The scan runs over one written byte without stopping in it. */
  lemma ScanOverEscape(s: bytes, p: nat, c: byte)
    requires At(s, p, Escape(c)) && p + |Escape(c)| <= |s|
    ensures ScanFrom(s, p).Closed? <==> ScanFrom(s, p + |Escape(c)|).Closed?
    ensures ScanFrom(s, p).Closed? ==> ScanFrom(s, p).end == ScanFrom(s, p + |Escape(c)|).end
  {
    var e := Escape(c);
    AtIndex(s, p, e, 0);
    if |e| > 1 {
      AtIndex(s, p, e, 1);
      if |e| == 6 {
        AtIndex(s, p, e, 2);
        AtIndex(s, p, e, 3);
        AtIndex(s, p, e, 4);
        AtIndex(s, p, e, 5);
        assert ScanFrom(s, p + 2) == ScanFrom(s, p + 3) == ScanFrom(s, p + 4);
        assert ScanFrom(s, p + 4) == ScanFrom(s, p + 5) == ScanFrom(s, p + 6);
      }
    }
  }

  lemma StepOverEscape(s: bytes, p: nat, end: nat, c: byte)
    requires At(s, p, Escape(c)) && p + |Escape(c)| <= end < |s| && c != NUL
    ensures StepAt(s, p, end) == Step(|Escape(c)|, [c])
  {
    var e := Escape(c);
    AtIndex(s, p, e, 0);
    if |e| > 1 {
      AtIndex(s, p, e, 1);
      if |e| == 6 {
        HexEscapeRead(s, p, end, c);
      }
    }
  }

  lemma HexEscapeRead(s: bytes, p: nat, end: nat, c: byte)
    requires At(s, p, Escape(c)) && p + 6 <= end < |s| && |Escape(c)| == 6
    ensures Utf16Literal(s, p, end) == Accepted(6, c) && Utf8(c) == [c]
  {
    var e := Escape(c);
    AtIndex(s, p, e, 2);
    AtIndex(s, p, e, 3);
    AtIndex(s, p, e, 4);
    AtIndex(s, p, e, 5);
    assert AllHex(s, p + 2, 4);
    assert Hex4(s, p + 2) == c / 16 * 16 + c % 16 == c;
  }

  lemma {:induction false} ScanReadsBack(s: bytes, p: nat, t: bytes, end: nat)
    requires At(s, p, Escaped(t)) && end == p + |Escaped(t)| < |s| && s[end] == QUOTE
    ensures ScanFrom(s, p).Closed? && ScanFrom(s, p).end == end
    decreases |t|
  {
    if t != [] {
      var q := EscapedAt(s, p, t);
      ScanReadsBack(s, q, t[1..], end);
      ScanOverEscape(s, p, t[0]);
    }
  }

  lemma {:induction false} DecodeReadsBack(s: bytes, p: nat, t: bytes, end: nat)
    requires NulFree(t)
    requires At(s, p, Escaped(t)) && end == p + |Escaped(t)| < |s|
    ensures Decode(s, p, end) == Decoded(t)
    decreases |t|
  {
    if t != [] {
      var q := EscapedAt(s, p, t);
      StepOverEscape(s, p, end, t[0]);
      DecodeReadsBack(s, q, t[1..], end);
      DecodeFirst(s, p, end, t);
    }
  }

  lemma DecodeFirst(s: bytes, p: nat, end: nat, t: bytes)
    requires t != [] && p + |Escape(t[0])| <= end < |s|
    requires StepAt(s, p, end) == Step(|Escape(t[0])|, [t[0]])
    requires Decode(s, p + |Escape(t[0])|, end) == Decoded(t[1..])
    ensures Decode(s, p, end) == Decoded(t)
  {
    assert [t[0]] + t[1..] == t;
  }

  lemma EscapedAt(s: bytes, p: nat, t: bytes) returns (q: nat)
    requires t != [] && At(s, p, Escaped(t))
    ensures q == p + |Escape(t[0])| && At(s, p, Escape(t[0])) && At(s, q, Escaped(t[1..]))
    ensures q + |Escaped(t[1..])| == p + |Escaped(t)|
  {
    AtSplit(s, p, Escape(t[0]), Escaped(t[1..]));
    q := p + |Escape(t[0])|;
  }
}
