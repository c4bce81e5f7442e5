/**
 What the parser accepts: JSON with more freedom in its tokens.  White space is any byte up to 32, a
 string may hold any bytes, and a number is what looks like one; everything else is as RFC 8259 has
 it.  A span of a buffer reaches from its first byte to behind its last.
 */
module Accepted {
  import opened Bytes
  import opened JsonValue
  import opened Numbers
  import opened ParseSpec
  import opened StringCodec

  // ----- tokens

  predicate BlankSpan(s: bytes, p: nat, q: nat) {
    p <= q <= |s| && forall i :: p <= i < q ==> s[i] <= 32
  }

  predicate WordSpan(s: bytes, p: nat, q: nat) {
    && p <= q <= |s|
    && s[p..q] in {[110, 117, 108, 108], [116, 114, 117, 101], [102, 97, 108, 115, 101]}
  }

  /** Bytes that are no quote, and pairs of a backslash and any byte. */
  predicate CharsSpan(s: bytes, p: nat, q: nat)
    decreases q - p
  {
    p <= q <= |s| &&
    (p == q ||
     (s[p] != 34 && s[p] != 92 && CharsSpan(s, p + 1, q)) ||
     (s[p] == 92 && p + 2 <= q && CharsSpan(s, p + 2, q)))
  }

  predicate StringSpan(s: bytes, p: nat, q: nat) {
    p + 2 <= q <= |s| && s[p] == 34 && s[q - 1] == 34 && CharsSpan(s, p + 1, q - 1)
  }

  /** A minus or a digit in front, a digit somewhere, and nothing but what numbers are made of. */
  predicate NumberSpan(s: bytes, p: nat, q: nat) {
    && p < q <= |s| && (s[p] == 45 || 48 <= s[p] <= 57) && q <= p + 63
    && (exists i :: p <= i < q && 48 <= s[i] <= 57)
    && forall i :: p <= i < q ==> 48 <= s[i] <= 57 || s[i] in [43, 45, 46, 69, 101]
  }

  // ----- values

  ghost predicate ValueSpan(s: bytes, p: nat, q: nat)
    decreases if p <= q then q - p else 0, 1
  {
    && p <= q <= |s|
    && (WordSpan(s, p, q) || StringSpan(s, p, q) || NumberSpan(s, p, q) || ArraySpan(s, p, q) || ObjectSpan(s, p, q))
  }

  ghost predicate ArraySpan(s: bytes, p: nat, q: nat)
    decreases if p <= q then q - p else 0, 0
  {
    && p + 2 <= q <= |s| && s[p] == 91 && s[q - 1] == 93
    && (BlankSpan(s, p + 1, q - 1) || ElementsSpan(s, p + 1, q - 1))
  }

  ghost predicate ObjectSpan(s: bytes, p: nat, q: nat)
    decreases if p <= q then q - p else 0, 0
  {
    && p + 2 <= q <= |s| && s[p] == 123 && s[q - 1] == 125
    && (BlankSpan(s, p + 1, q - 1) || MembersSpan(s, p + 1, q - 1))
  }

  /** Values with white space around them and commas between them. */
  ghost predicate ElementsSpan(s: bytes, p: nat, q: nat)
    decreases if p <= q then q - p else 0, 3
  {
    && p <= q <= |s|
    && (ElementSpan(s, p, q) ||
        exists c :: p <= c < q && s[c] == 44 && ElementSpan(s, p, c) && ElementsSpan(s, c + 1, q))
  }

  ghost predicate ElementSpan(s: bytes, p: nat, q: nat)
    decreases if p <= q then q - p else 0, 2
  {
    p <= q <= |s| && exists v, e :: p <= v <= e <= q && BlankSpan(s, p, v) && ValueSpan(s, v, e) && BlankSpan(s, e, q)
  }

  ghost predicate MembersSpan(s: bytes, p: nat, q: nat)
    decreases if p <= q then q - p else 0, 4
  {
    && p <= q <= |s|
    && (MemberSpan(s, p, q) ||
        exists c :: p <= c < q && s[c] == 44 && MemberSpan(s, p, c) && MembersSpan(s, c + 1, q))
  }

  ghost predicate MemberSpan(s: bytes, p: nat, q: nat)
    decreases if p <= q then q - p else 0, 3
  {
    p <= q <= |s| && exists c :: p <= c < q && s[c] == 58 && KeySpan(s, p, c) && ElementSpan(s, c + 1, q)
  }

  ghost predicate KeySpan(s: bytes, p: nat, q: nat) {
    p <= q <= |s| && exists k, e :: p <= k <= e <= q && BlankSpan(s, p, k) && StringSpan(s, k, e) && BlankSpan(s, e, q)
  }

  // ----- tokens that were read

  lemma {:induction false} RunIsBlank(s: bytes, o: nat)
    requires o <= |s|
    ensures BlankSpan(s, o, SkipRun(s, o))
    decreases |s| - o
  {
    if o < |s| && s[o] <= 32 {
      RunIsBlank(s, o + 1);
    }
  }

  lemma SkippedIsBlank(s: bytes, o: nat)
    requires o <= |s|
    ensures BlankSpan(s, o, SkipWhitespace(s, o))
  {
    RunIsBlank(s, o);
  }

  lemma {:induction false} ScannedIsChars(s: bytes, p: nat)
    requires p <= |s| && ScanFrom(s, p).Closed?
    ensures CharsSpan(s, p, ScanFrom(s, p).end)
    decreases |s| - p
  {
    if s[p] != QUOTE {
      ScannedIsChars(s, if s[p] == BACKSLASH then p + 2 else p + 1);
    }
  }

  lemma StringWasRead(s: bytes, p: nat, d: nat)
    requires p < |s| && ParseStringAt(s, p, d).Success?
    ensures StringSpan(s, p, ParseStringAt(s, p, d).offset)
  {
    ScannedIsChars(s, p + 1);
  }

  lemma {:induction false} NumberBytesTaken(s: bytes, o: nat, stop: nat)
    requires o <= stop <= |s|
    ensures forall i :: o <= i < NumberEnd(s, o, stop) ==> IsNumberChar(s[i])
    decreases stop - o
  {
    if o < stop && IsNumberChar(s[o]) {
      NumberBytesTaken(s, o + 1, stop);
    }
  }

  lemma StrtodHasDigit(t: bytes)
    requires Strtod(t).Literal?
    ensures exists i :: 0 <= i < Strtod(t).consumed && IsDigit(t[i])
  {
    var i := SignLength(t, 0);
    var whole := DigitRun(t, i);
    if whole > 0 {
      assert IsDigit(t[i..i + whole][0]);
      assert IsDigit(t[i]);
    } else {
      var k := DigitRun(t, i + 1);
      assert k > 0;
      assert IsDigit(t[i + 1..i + 1 + k][0]);
      assert IsDigit(t[i + 1]);
    }
  }

  lemma NumberWasRead(s: bytes, p: nat)
    requires p < |s| && (s[p] == MINUS || IsDigit(s[p])) && ParseNumberAt(s, p).Literal?
    ensures NumberSpan(s, p, p + ParseNumberAt(s, p).consumed)
  {
    hide Strtod;
    var t := NumberText(s, p);
    var n := ParseNumberAt(s, p).consumed;
    NumberBytesTaken(s, p, NumberStop(s, p));
    StrtodHasDigit(t);
    var i :| 0 <= i < n && IsDigit(t[i]);
    assert t[i] == s[p + i];
    assert forall j :: p <= j < p + n ==> IsNumberChar(s[j]);
  }

  // ----- values that were read

  lemma WordsRead(s: bytes, p: nat)
    ensures NullAt(s, p) ==> WordSpan(s, p, p + 4)
    ensures TrueAt(s, p) ==> WordSpan(s, p, p + 4)
    ensures FalseAt(s, p) ==> WordSpan(s, p, p + 5)
  {
    if NullAt(s, p) {
      assert s[p..p + 4] == [110, 117, 108, 108];
    } else if TrueAt(s, p) {
      assert s[p..p + 4] == [116, 114, 117, 101];
    } else if FalseAt(s, p) {
      assert s[p..p + 5] == [102, 97, 108, 115, 101];
    }
  }

  lemma {:induction false} ValueWasRead(s: bytes, p: nat, d: nat)
    requires p <= |s| && d <= NESTING_LIMIT && ParseValueAt(s, p, d).Success?
    ensures ValueSpan(s, p, ParseValueAt(s, p, d).offset)
    decreases |s| - p, 2
  {
    hide ArraySpan, ObjectSpan, WordSpan, StringSpan, NumberSpan, ParseArrayAt, ParseObjectAt, ParseStringAt;
    hide ParseNumberAt;
    WordsRead(s, p);
    if p < |s| && s[p] == QUOTE && ParseStringAt(s, p, d).Success? {
      StringWasRead(s, p, d);
    } else if p < |s| && (s[p] == MINUS || IsDigit(s[p])) && ParseNumberAt(s, p).Literal? {
      NumberWasRead(s, p);
    } else if p < |s| && s[p] == LBRACKET && ParseArrayAt(s, p, d).Success? {
      ArrayWasRead(s, p, d);
    } else if p < |s| && s[p] == LBRACE && ParseObjectAt(s, p, d).Success? {
      ObjectWasRead(s, p, d);
    }
  }

  lemma {:induction false} ArrayWasRead(s: bytes, p: nat, d: nat)
    requires p < |s| && s[p] == LBRACKET && d <= NESTING_LIMIT && ParseArrayAt(s, p, d).Success?
    ensures ArraySpan(s, p, ParseArrayAt(s, p, d).offset)
    decreases |s| - p, 1
  {
    hide ElementsSpan, ElementsAt, SkipWhitespace;
    var v := SkipWhitespace(s, p + 1);
    SkippedIsBlank(s, p + 1);
    if s[v] != RBRACKET {
      Settled(s, p + 1);
      ElementsWereRead(s, v - 1, p + 1, d + 1);
    }
  }

  /** Where white space ends there is none to skip. */
  lemma Settled(s: bytes, o: nat)
    requires o <= |s| && SkipWhitespace(s, o) < |s|
    ensures SkipWhitespace(s, SkipWhitespace(s, o)) == SkipWhitespace(s, o)
  {
    var v := SkipWhitespace(s, o);
    if s[v] <= 32 {
      assert SkipRun(s, |s|) == |s|;
    }
  }

  /** From p, behind the bracket or comma, to the closing bracket. */
  lemma {:induction false} ElementsWereRead(s: bytes, o: nat, p: nat, d: nat)
    requires o < |s| && d <= NESTING_LIMIT && p <= o + 1 && ElementsAt(s, o, d).Success?
    requires BlankSpan(s, p, SkipWhitespace(s, o + 1))
    ensures var e := ElementsAt(s, o, d).offset;
            p < e && s[e - 1] == 93 && ElementsSpan(s, p, e - 1)
    decreases |s| - o, 0
  {
    hide ValueSpan, ParseValueAt, SkipWhitespace, BlankSpan;
    var v := SkipWhitespace(s, o + 1);
    var first := ParseValueAt(s, v, d);
    ValueWasRead(s, v, d);
    var c := SkipWhitespace(s, first.offset);
    SkippedIsBlank(s, first.offset);
    assert ElementSpan(s, p, c);
    if s[c] == COMMA {
      SkippedIsBlank(s, c + 1);
      ElementsWereRead(s, c, c + 1, d);
    }
  }

  lemma {:induction false} ObjectWasRead(s: bytes, p: nat, d: nat)
    requires p < |s| && s[p] == LBRACE && d <= NESTING_LIMIT && ParseObjectAt(s, p, d).Success?
    ensures ObjectSpan(s, p, ParseObjectAt(s, p, d).offset)
    decreases |s| - p, 1
  {
    hide MembersSpan, MembersAt, SkipWhitespace;
    var v := SkipWhitespace(s, p + 1);
    SkippedIsBlank(s, p + 1);
    if s[v] != RBRACE {
      Settled(s, p + 1);
      MembersWereRead(s, v - 1, p + 1, d + 1);
    }
  }

  lemma KeyWasRead(s: bytes, o: nat, p: nat, d: nat) returns (n: nat)
    requires o < |s| && KeyAt(s, o, d).Success? && o + 1 < |s|
    requires BlankSpan(s, p, SkipWhitespace(s, o + 1)) && p <= o + 1
    ensures p <= n < KeyAt(s, o, d).offset <= |s| && s[n] == 58 && KeySpan(s, p, n)
    ensures BlankSpan(s, n + 1, KeyAt(s, o, d).offset)
  {
    hide StringSpan, ParseStringAt, SkipWhitespace, BlankSpan;
    var k := SkipWhitespace(s, o + 1);
    var key := ParseStringAt(s, k, d);
    StringWasRead(s, k, d);
    n := SkipWhitespace(s, key.offset);
    SkippedIsBlank(s, key.offset);
    SkippedIsBlank(s, n + 1);
  }

  lemma {:induction false} MembersWereRead(s: bytes, o: nat, p: nat, d: nat)
    requires o < |s| && d <= NESTING_LIMIT && p <= o + 1 && MembersAt(s, o, d).Success?
    requires o + 1 <= |s| && BlankSpan(s, p, SkipWhitespace(s, o + 1))
    ensures var e := MembersAt(s, o, d).offset;
            p < e && s[e - 1] == 125 && MembersSpan(s, p, e - 1)
    decreases |s| - o, 0
  {
    hide ValueSpan, ParseValueAt, SkipWhitespace, BlankSpan, KeySpan, KeyAt;
    var first := MemberAt(s, o, d);
    var key := KeyAt(s, o, d);
    KeyNeedsMore(s, o, d);
    var n := KeyWasRead(s, o, p, d);
    var value := ParseValueAt(s, key.offset, d);
    ValueWasRead(s, key.offset, d);
    var c := SkipWhitespace(s, value.offset);
    SkippedIsBlank(s, value.offset);
    assert ElementSpan(s, n + 1, c);
    assert MemberSpan(s, p, c);
    if s[c] == COMMA {
      SkippedIsBlank(s, c + 1);
      MembersWereRead(s, c, c + 1, d);
    }
  }

  lemma KeyNeedsMore(s: bytes, o: nat, d: nat)
    requires o < |s|
    ensures KeyAt(s, o, d).Success? ==> o + 1 < |s|
  {}

  /**
   Nothing else is accepted: of a text that parses, what was read is such a value with white space in
   front of it, behind a byte order mark perhaps.
   */
  lemma AcceptedIsValue(s: bytes, requireTerminated: bool)
    requires ParseText(s, requireTerminated).Parsed?
    ensures exists v: nat, e: nat ::
              && BlankSpan(s, SkipBom(s), v) && ValueSpan(s, v, e) && e <= |s|
              && (if requireTerminated then BlankSpan(s, e, ParseText(s, true).end) && s[ParseText(s, true).end] == 0
                  else ParseText(s, false).end == e)
  {
    hide ValueSpan, ParseValueAt, SkipWhitespace, BlankSpan;
    var v := SkipWhitespace(s, SkipBom(s));
    var e := ParseValueAt(s, v, 0).offset;
    SkippedIsBlank(s, SkipBom(s));
    ValueWasRead(s, v, 0);
    SkippedIsBlank(s, e);
  }
}
