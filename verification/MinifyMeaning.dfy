/**
 Minifying any text that the parser accepts, however it is laid out, leaves a text that stands for
 the same tree.  The parser is followed through both texts at once, token by token.
 */
module MinifyMeaning {
  import opened Bytes
  import opened JsonValue
  import opened StringCodec
  import opened Escapes
  import opened Numbers
  import opened ParseSpec
  import M = Minify
  import opened Wrappers

  function Terminated(t: bytes): bytes {
    t + [NUL]
  }

  // ----- an accepted text does not end in a backslash

  lemma {:induction false} StringEnds(t: bytes, p: nat)
    requires p <= |t| && t != [] && t[|t| - 1] != BACKSLASH
    ensures M.StringEnd(t, p).Some?
    decreases |t| - p
  {
    if p < |t| && t[p] == BACKSLASH {
      StringEnds(t, p + 2);
    } else if p < |t| && t[p] != QUOTE {
      StringEnds(t, p + 1);
    }
  }

  lemma {:induction false} MinifyFinishes(t: bytes, p: nat)
    requires p <= |t| && t != [] && t[|t| - 1] != BACKSLASH
    ensures M.MinifyFrom(t, p).Minified?
    decreases |t| - p
  {
    if p == |t| {
    } else if M.IsBlank(t[p]) {
      MinifyFinishes(t, p + 1);
    } else if M.SlashThen(t, p, SLASH) {
      MinifyFinishes(t, M.LineCommentEnd(t, p));
    } else if M.SlashThen(t, p, STAR) {
      MinifyFinishes(t, M.BlockCommentEnd(t, p));
    } else if t[p] == QUOTE {
      StringEnds(t, p + 1);
      MinifyFinishes(t, M.StringEnd(t, p + 1).value);
    } else {
      MinifyFinishes(t, p + 1);
    }
  }

  lemma {:induction false} NumberChars(s: bytes, o: nat, stop: nat, i: nat)
    requires o <= stop <= |s| && o <= i < NumberEnd(s, o, stop)
    ensures IsNumberChar(s[i])
    decreases stop - o
  {
    if o < i {
      NumberChars(s, o + 1, stop, i);
    }
  }

  /** The last byte of a value. */
  lemma ValueEnds(s: bytes, p: nat, d: nat)
    requires p <= |s| && d <= NESTING_LIMIT
    ensures var r := ParseValueAt(s, p, d);
            r.Success? ==> s[r.offset - 1] > 32 && s[r.offset - 1] != BACKSLASH
  {
    hide ElementsAt, MembersAt, Strtod, Decode, IntOf;
    var r := ParseValueAt(s, p, d);
    if p < |s| && r.Success? {
      if s[p] == MINUS || IsDigit(s[p]) {
        NumberChars(s, p, NumberStop(s, p), r.offset - 1);
      } else if s[p] == LBRACKET {
        var e := EntryAt(s, p, d, RBRACKET);
        if e.Filled? {
          ElementsEnd(s, e.offset, d + 1);
        }
      } else if s[p] == LBRACE {
        var e := EntryAt(s, p, d, RBRACE);
        if e.Filled? {
          MembersEnd(s, e.offset, d + 1);
        }
      }
    }
  }

  lemma {:induction false} ElementsEnd(s: bytes, o: nat, d: nat)
    requires o < |s| && d <= NESTING_LIMIT
    ensures var r := ElementsAt(s, o, d);
            r.Success? ==> s[r.offset - 1] == RBRACKET
    decreases |s| - o
  {
    hide ElementAt;
    var first := ElementAt(s, o, d);
    if first.Success? {
      var o' := SkipWhitespace(s, first.offset);
      if o' < |s| && s[o'] == COMMA {
        ElementsEnd(s, o', d);
      }
    }
  }

  lemma {:induction false} MembersEnd(s: bytes, o: nat, d: nat)
    requires o < |s| && d <= NESTING_LIMIT
    ensures var r := MembersAt(s, o, d);
            r.Success? ==> s[r.offset - 1] == RBRACE
    decreases |s| - o
  {
    hide MemberAt;
    var first := MemberAt(s, o, d);
    if first.Success? {
      var o' := SkipWhitespace(s, first.offset);
      if o' < |s| && s[o'] == COMMA {
        MembersEnd(s, o', d);
      }
    }
  }

  // ----- the two texts side by side

  /** Up to p and up to q the texts have been read; the rest of u is what is left of the rest of t. */
  ghost predicate Match(t: bytes, p: nat, u: bytes, q: nat) {
    p <= |t| && q <= |u| && M.MinifyFrom(t, p) == M.Minified(u[q..])
  }

  lemma MatchPlain(t: bytes, p: nat, u: bytes, q: nat)
    requires Match(t, p, u, q) && p < |t| && M.IsPlain(t[p])
    ensures q < |u| && u[q] == t[p] && Match(t, p + 1, u, q + 1)
  {
    var rest := M.MinifyFrom(t, p + 1);
    assert u[q..] == [t[p]] + rest.out;
    assert u[q + 1..] == u[q..][1..] == rest.out;
    assert u[q..][0] == u[q];
  }

  lemma MatchBlank(t: bytes, p: nat, u: bytes, q: nat)
    requires Match(t, p, u, q) && p < |t| && M.IsBlank(t[p])
    ensures Match(t, p + 1, u, q)
  {}

  lemma MatchEnd(t: bytes, u: bytes, q: nat)
    requires Match(t, |t|, u, q)
    ensures q == |u|
  {}

  lemma MatchString(t: bytes, p: nat, u: bytes, q: nat)
    requires Match(t, p, u, q) && p < |t| && t[p] == QUOTE
    ensures var e := M.StringEnd(t, p + 1);
            && e.Some? && q + (e.value - p) <= |u|
            && u[q..q + (e.value - p)] == t[p..e.value]
            && Match(t, e.value, u, q + (e.value - p))
  {
    var e := M.StringEnd(t, p + 1).value;
    var rest := M.MinifyFrom(t, e);
    assert u[q..] == t[p..e] + rest.out;
    assert u[q + (e - p)..] == u[q..][e - p..] == rest.out;
    assert u[q..q + (e - p)] == u[q..][..e - p];
  }

  /** A run of plain bytes is copied. */
  lemma {:induction false} MatchRun(t: bytes, p: nat, u: bytes, q: nat, x: bytes)
    requires Match(t, p, u, q) && At(t, p, x) && forall i :: 0 <= i < |x| ==> M.IsPlain(x[i])
    ensures At(u, q, x) && Match(t, p + |x|, u, q + |x|)
    decreases |x|
  {
    if x != [] {
      MatchPlain(t, p, u, q);
      MatchRun(t, p + 1, u, q + 1, x[1..]);
    }
  }

  // ----- white space

  lemma {:induction false} SkipIsRun(t: bytes, p: nat)
    requires NulFree(t) && p <= |t|
    ensures SkipWhitespace(Terminated(t), p) == SkipRun(t, p)
    decreases |t| - p
  {
    var s := Terminated(t);
    if p == |t| {
      assert SkipRun(s, |s|) == |s|;
    } else if t[p] <= 32 {
      SkipIsRun(t, p + 1);
    }
  }

  /** What the parser can meet outside of strings: not the slash of a comment. */
  predicate Clear(t: bytes, p: nat)
    requires p <= |t|
  {
    p < |t| ==> t[p] != SLASH
  }

  lemma {:induction false} MatchStop(t: bytes, p: nat, u: bytes, q: nat)
    requires Match(t, p, u, q) && Clear(t, SkipRun(t, p))
    ensures Match(t, SkipRun(t, p), u, SkipRun(u, q))
    ensures Terminated(t)[SkipRun(t, p)] == Terminated(u)[SkipRun(u, q)]
    decreases |t| - p
  {
    if p == |t| {
      MatchEnd(t, u, q);
    } else if M.IsBlank(t[p]) {
      MatchBlank(t, p, u, q);
      MatchStop(t, p + 1, u, q);
    } else if t[p] <= 32 {
      MatchPlain(t, p, u, q);
      MatchStop(t, p + 1, u, q + 1);
    } else if t[p] == QUOTE {
      MatchString(t, p, u, q);
      assert u[q] == u[q..q + (M.StringEnd(t, p + 1).value - p)][0] == QUOTE;
    } else {
      MatchPlain(t, p, u, q);
    }
  }

  // ----- tokens

  /** What comes behind a value in an accepted text: white space, then the end, a comma or a bracket. */
  predicate Follows(t: bytes, p: nat)
    requires p <= |t|
  {
    var f := SkipRun(t, p);
    f < |t| ==> t[f] == COMMA || t[f] == RBRACKET || t[f] == RBRACE
  }

  /** Behind a value there is no more number text, in either of the texts. */
  lemma NumberIsOver(t: bytes, p: nat, u: bytes, q: nat)
    requires Match(t, p, u, q) && Follows(t, p)
    ensures !IsNumberChar(Terminated(t)[p]) && !IsNumberChar(Terminated(u)[q])
  {
    MatchStop(t, p, u, q);
    assert Terminated(u)[q] <= 32 || SkipRun(u, q) == q;
  }

  lemma LiteralMatches(t: bytes, p: nat, u: bytes, q: nat, x: bytes)
    requires Match(t, p, u, q) && At(Terminated(t), p, x) && NulFree(x) && forall i :: 0 <= i < |x| ==> M.IsPlain(x[i])
    ensures At(Terminated(u), q, x) && p + |x| <= |t| && Match(t, p + |x|, u, q + |x|)
  {
    InFront(t, p, x);
    MatchRun(t, p, u, q, x);
    InTerminated(u, q, x);
  }

  /** Text without a terminator stands in front of it. */
  lemma {:induction false} InFront(t: bytes, p: nat, x: bytes)
    requires p <= |t| && At(Terminated(t), p, x) && NulFree(x)
    ensures At(t, p, x) && p + |x| <= |t|
    decreases |x|
  {
    if x != [] {
      assert x[0] in x;
      InFront(t, p + 1, x[1..]);
    }
  }

  lemma {:induction false} InTerminated(t: bytes, p: nat, x: bytes)
    requires At(t, p, x)
    ensures At(Terminated(t), p, x)
    decreases |x|
  {
    if x != [] {
      InTerminated(t, p + 1, x[1..]);
    }
  }

  lemma LiteralsArePlain()
    ensures forall i :: 0 <= i < |NULL_TEXT| ==> M.IsPlain(NULL_TEXT[i])
    ensures forall i :: 0 <= i < |TRUE_TEXT| ==> M.IsPlain(TRUE_TEXT[i])
    ensures forall i :: 0 <= i < |FALSE_TEXT| ==> M.IsPlain(FALSE_TEXT[i])
    ensures NulFree(NULL_TEXT) && NulFree(TRUE_TEXT) && NulFree(FALSE_TEXT)
  {}

  // ----- numbers

  lemma {:induction false} NumberRunIsText(s: bytes, o: nat, stop: nat)
    requires o <= stop <= |s|
    ensures var x := s[o..NumberEnd(s, o, stop)];
            At(s, o, x) && forall i :: 0 <= i < |x| ==> IsNumberChar(x[i])
  {
    var e := NumberEnd(s, o, stop);
    AtIsSlice(s, o, s[o..e]);
    forall i | 0 <= i < e - o
      ensures IsNumberChar(s[o..e][i])
    {
      NumberChars(s, o, stop, o + i);
    }
  }

  /** A number that is followed as a value is: its text is all that was consumed. */
  lemma NumberIsItsText(s: bytes, o: nat)
    requires o <= |s| && ParseNumberAt(s, o).Literal?
    requires var e := o + ParseNumberAt(s, o).consumed; e < |s| && !IsNumberChar(s[e])
    ensures |NumberText(s, o)| == ParseNumberAt(s, o).consumed
  {
    var e, end := o + ParseNumberAt(s, o).consumed, NumberEnd(s, o, NumberStop(s, o));
    if e < end {
      NumberChars(s, o, NumberStop(s, o), e);
    }
  }

  lemma NumberMatches(t: bytes, p: nat, u: bytes, q: nat)
    requires NulFree(t) && Match(t, p, u, q) && ParseNumberAt(Terminated(t), p).Literal?
    requires var e := p + ParseNumberAt(Terminated(t), p).consumed; e <= |t| && Follows(t, e)
    ensures ParseNumberAt(Terminated(u), q) == ParseNumberAt(Terminated(t), p)
    ensures var n := ParseNumberAt(Terminated(t), p).consumed; Match(t, p + n, u, q + n)
  {
    hide Strtod;
    var s, r := Terminated(t), Terminated(u);
    var n := ParseNumberAt(s, p).consumed;
    var x := NumberText(s, p);
    NumberRunIsText(s, p, NumberStop(s, p));
    NumberIsNotOver(t, p, n);
    NumberIsItsText(s, p);
    assert |x| == n <= 63;
    LiteralMatches(t, p, u, q, x);
    NumberIsOver(t, p + n, u, q + n);
    AtFits(r, q, x);
    NumberEndOfText(r, q, NumberStop(r, q), x);
    AtIsSlice(r, q, x);
  }

  lemma NumberIsNotOver(t: bytes, p: nat, n: nat)
    requires p + n <= |t| && Follows(t, p + n)
    ensures !IsNumberChar(Terminated(t)[p + n])
  {
    assert Terminated(t)[p + n] <= 32 || SkipRun(t, p + n) == p + n;
  }

  // ----- strings

  /** The same n bytes stand in both places. */
  predicate Alike(s: bytes, p: nat, s': bytes, p': nat, n: nat) {
    p + n <= |s| && p' + n <= |s'| && s[p..p + n] == s'[p'..p' + n]
  }

  lemma AlikeBehind(s: bytes, p: nat, s': bytes, p': nat, n: nat, k: nat)
    requires Alike(s, p, s', p', n) && k <= n
    ensures Alike(s, p + k, s', p' + k, n - k)
  {
    assert s[p + k..p + n] == s[p..p + n][k..];
    assert s'[p' + k..p' + n] == s'[p'..p' + n][k..];
  }

  lemma AlikePart(s: bytes, p: nat, s': bytes, p': nat, n: nat, k: nat, m: nat)
    requires Alike(s, p, s', p', n) && k + m <= n
    ensures Alike(s, p + k, s', p' + k, m)
  {
    AlikeBehind(s, p, s', p', n, k);
    assert s[p + k..p + k + m] == s[p + k..p + n][..m];
    assert s'[p' + k..p' + k + m] == s'[p' + k..p' + n][..m];
  }

  lemma AlikeAt(s: bytes, p: nat, s': bytes, p': nat, n: nat, i: nat)
    requires Alike(s, p, s', p', n) && i < n
    ensures p + i < |s| && p' + i < |s'| && s[p + i] == s'[p' + i]
  {
    assert s[p + i] == s[p..p + n][i] && s'[p' + i] == s'[p'..p' + n][i];
  }

  lemma ScanRunsOut(s: bytes, p: nat)
    requires p <= |s| && (p < |s| ==> p + 1 == |s| && s[p] == NUL)
    ensures ScanFrom(s, p) == Unterminated
  {
    assert ScanFrom(s, |s|) == Unterminated;
  }

  /** Both scans find the same closing quote: parse_string's and the minifier's. */
  lemma {:induction false} ScanIsStringEnd(t: bytes, p: nat)
    requires p <= |t| && ScanFrom(Terminated(t), p).Closed?
    ensures ScanFrom(Terminated(t), p).end < |t|
    ensures M.StringEnd(t, p) == Some(ScanFrom(Terminated(t), p).end + 1)
    decreases |t| - p
  {
    var s := Terminated(t);
    if p + 1 >= |t| {
      ScanRunsOut(s, |t|);
      ScanRunsOut(s, |s|);
    }
    if p == |t| {
    } else if t[p] == BACKSLASH {
      if p + 1 < |t| {
        ScanIsStringEnd(t, p + 2);
      }
    } else if t[p] != QUOTE {
      ScanIsStringEnd(t, p + 1);
    }
  }

  lemma {:induction false} ScanMoves(s: bytes, p: nat, s': bytes, p': nat, n: nat)
    requires Alike(s, p, s', p', n + 1) && ScanFrom(s, p).Closed? && ScanFrom(s, p).end == p + n
    ensures ScanFrom(s', p').Closed? && ScanFrom(s', p').end == p' + n
    decreases n
  {
    hide Alike;
    AlikeAt(s, p, s', p', n + 1, 0);
    if s[p] == BACKSLASH {
      AlikeBehind(s, p, s', p', n + 1, 2);
      ScanMoves(s, p + 2, s', p' + 2, n - 2);
    } else if s[p] != QUOTE {
      AlikeBehind(s, p, s', p', n + 1, 1);
      ScanMoves(s, p + 1, s', p' + 1, n - 1);
    }
  }

  lemma Hex4Moves(s: bytes, p: nat, s': bytes, p': nat)
    requires Alike(s, p, s', p', 4)
    ensures Hex4(s, p) == Hex4(s', p')
  {
    AlikeAt(s, p, s', p', 4, 0);
    AlikeAt(s, p, s', p', 4, 1);
    AlikeAt(s, p, s', p', 4, 2);
    AlikeAt(s, p, s', p', 4, 3);
    FourDigits(s, p);
    FourDigits(s', p');
  }

  lemma FourDigits(s: bytes, p: nat)
    requires p + 4 <= |s|
    ensures AllHex(s, p, 4) <==> IsHex(s[p]) && IsHex(s[p + 1]) && IsHex(s[p + 2]) && IsHex(s[p + 3])
  {}

  lemma LiteralMoves(s: bytes, p: nat, s': bytes, p': nat, n: nat)
    requires Alike(s, p, s', p', n + 1)
    ensures Utf16Literal(s, p, p + n) == Utf16Literal(s', p', p' + n)
  {
    hide Hex4;
    if n >= 6 {
      AlikePart(s, p, s', p', n + 1, 2, 4);
      Hex4Moves(s, p + 2, s', p' + 2);
      if n >= 12 {
        AlikeAt(s, p, s', p', n + 1, 6);
        AlikeAt(s, p, s', p', n + 1, 7);
        AlikePart(s, p, s', p', n + 1, 8, 4);
        Hex4Moves(s, p + 8, s', p' + 8);
      }
    }
  }

  lemma StepMoves(s: bytes, p: nat, s': bytes, p': nat, n: nat)
    requires 0 < n && Alike(s, p, s', p', n + 1)
    ensures StepAt(s, p, p + n) == StepAt(s', p', p' + n)
  {
    hide Utf16Literal, Utf8;
    AlikeAt(s, p, s', p', n + 1, 0);
    AlikeAt(s, p, s', p', n + 1, 1);
    LiteralMoves(s, p, s', p', n);
  }

  /** A string means the same wherever it stands. */
  lemma {:induction false} DecodeMoves(s: bytes, p: nat, s': bytes, p': nat, n: int)
    requires n >= -1 && Alike(s, p, s', p', n + 1) && p + n + 1 <= |s| && p' + n + 1 <= |s'|
    requires 0 <= p + n && 0 <= p' + n
    requires Decode(s, p, p + n).Decoded?
    ensures Decode(s', p', p' + n) == Decode(s, p, p + n)
    decreases n + 1
  {
    hide StepAt, Alike, Prepend;
    if n > 0 {
      StepMoves(s, p, s', p', n);
      var w := DecodeGoesOn(s, p, p + n);
      AlikeBehind(s, p, s', p', n + 1, w);
      DecodeMoves(s, p + w, s', p' + w, n - w);
    }
  }

  /** A decoding that succeeds also succeeds behind its first round. */
  lemma DecodeGoesOn(s: bytes, p: nat, end: nat) returns (w: nat)
    requires p < end < |s| && Decode(s, p, end).Decoded?
    ensures StepAt(s, p, end).Step? && w == StepAt(s, p, end).width && 0 < w && p + w <= end + 1
    ensures Decode(s, p + w, end).Decoded?
    ensures Decode(s, p, end) == Prepend(StepAt(s, p, end).out, Decode(s, p + w, end))
  {
    hide StepAt;
    w := StepAt(s, p, end).width;
  }

  /** A quoted string stands at p, with its closing quote at end. */
  predicate StringRuns(s: bytes, p: nat, end: nat) {
    p < end < |s| && s[p] == QUOTE && ScanFrom(s, p + 1).Closed? && ScanFrom(s, p + 1).end == end
  }

  lemma StringRead(s: bytes, p: nat, d: nat) returns (end: nat)
    requires p < |s| && ParseStringAt(s, p, d).Success?
    ensures StringRuns(s, p, end) && Decode(s, p + 1, end).Decoded?
    ensures ParseStringAt(s, p, d) == Success(UpToNul(Decode(s, p + 1, end).out), end + 1)
  {
    end := ScanFrom(s, p + 1).end;
  }

  lemma StringReads(s: bytes, p: nat, end: nat, d: nat)
    requires StringRuns(s, p, end) && Decode(s, p + 1, end).Decoded?
    ensures ParseStringAt(s, p, d) == Success(UpToNul(Decode(s, p + 1, end).out), end + 1)
  {}

  lemma StringIsCopied(t: bytes, p: nat, end: nat, u: bytes, q: nat)
    requires Match(t, p, u, q) && StringRuns(Terminated(t), p, end)
    ensures end < |t| && q + (end - p) < |u| && Match(t, end + 1, u, q + (end + 1 - p))
    ensures Alike(Terminated(t), p, Terminated(u), q, end + 1 - p)
  {
    hide M.MinifyFrom;
    ScanIsStringEnd(t, p + 1);
    MatchString(t, p, u, q);
    var q' := q + (end + 1 - p);
    assert Terminated(t)[p..end + 1] == t[p..end + 1] && Terminated(u)[q..q'] == u[q..q'];
  }

  lemma StringMoves(s: bytes, p: nat, end: nat, s': bytes, p': nat)
    requires StringRuns(s, p, end) && Alike(s, p, s', p', end + 1 - p) && Decode(s, p + 1, end).Decoded?
    ensures StringRuns(s', p', p' + (end - p))
    ensures Decode(s', p' + 1, p' + (end - p)) == Decode(s, p + 1, end)
  {
    hide Decode;
    AlikeAt(s, p, s', p', end + 1 - p, 0);
    AlikeBehind(s, p, s', p', end + 1 - p, 1);
    ScanMoves(s, p + 1, s', p' + 1, end - p - 1);
    DecodeMoves(s, p + 1, s', p' + 1, end - p - 1);
  }

  lemma StringMatches(t: bytes, p: nat, u: bytes, q: nat, d: nat) returns (q': nat)
    requires Match(t, p, u, q) && ParseStringAt(Terminated(t), p, d).Success?
    ensures var r := ParseStringAt(Terminated(t), p, d);
            && r.offset <= |t| && q < |u| && Match(t, r.offset, u, q')
            && ParseStringAt(Terminated(u), q, d) == Success(r.value, q')
  {
    hide Match, Decode, StringRuns, Alike, ParseStringAt;
    var end := StringRead(Terminated(t), p, d);
    StringIsCopied(t, p, end, u, q);
    StringMoves(Terminated(t), p, end, Terminated(u), q);
    StringReads(Terminated(u), q, q + (end - p), d);
    q' := q + (end + 1 - p);
  }

  // ----- one step of the parser, taken apart and put together

  lemma ValueCases(s: bytes, p: nat, d: nat)
    requires p < |s| && d <= NESTING_LIMIT
    ensures var r := ParseValueAt(s, p, d);
            && (NullAt(s, p) ==> r == Success(Null, p + 4))
            && (FalseAt(s, p) ==> r == Success(Bool(false), p + 5))
            && (TrueAt(s, p) ==> r == Success(Bool(true), p + 4))
            && (s[p] == QUOTE ==> r == InString(ParseStringAt(s, p, d)))
            && (s[p] == MINUS || IsDigit(s[p]) ==> r == InNumber(ParseNumberAt(s, p), p, d))
            && (s[p] == LBRACKET ==> r == ParseArrayAt(s, p, d))
            && (s[p] == LBRACE ==> r == ParseObjectAt(s, p, d))
            && (r.Success? ==>
                  || NullAt(s, p) || FalseAt(s, p) || TrueAt(s, p) || s[p] == QUOTE
                  || s[p] == MINUS || IsDigit(s[p]) || s[p] == LBRACKET || s[p] == LBRACE)
  {
    hide ParseStringAt, ParseNumberAt, ParseArrayAt, ParseObjectAt;
  }

  function InString(r: Outcome<bytes>): Outcome<Json> {
    if r.Success? then Success(Str(r.value), r.offset) else Failure(r.offset, r.depth)
  }

  function InNumber(r: Numbers.Literal, p: nat, d: nat): Outcome<Json> {
    if r.Literal? then Success(Number(IntOf(r)), p + r.consumed) else Failure(p, d)
  }

  lemma ArrayRead(s: bytes, p: nat, d: nat) returns (c: nat)
    requires p < |s| && s[p] == LBRACKET && d <= NESTING_LIMIT && ParseArrayAt(s, p, d).Success?
    ensures d < NESTING_LIMIT && p < c == SkipWhitespace(s, p + 1) < |s|
    ensures s[c] == RBRACKET ==> ParseArrayAt(s, p, d) == Success(Arr(NoItem), c + 1)
    ensures s[c] != RBRACKET ==>
              ElementsAt(s, c - 1, d + 1).Success? && ParseArrayAt(s, p, d) == InArray(ElementsAt(s, c - 1, d + 1))
  {
    hide ElementsAt, SkipWhitespace;
    c := SkipWhitespace(s, p + 1);
  }

  lemma ArrayReads(s: bytes, p: nat, d: nat, c: nat)
    requires p < |s| && s[p] == LBRACKET && d < NESTING_LIMIT && p < c == SkipWhitespace(s, p + 1) < |s|
    ensures s[c] == RBRACKET ==> ParseArrayAt(s, p, d) == Success(Arr(NoItem), c + 1)
    ensures s[c] != RBRACKET ==> ParseArrayAt(s, p, d) == InArray(ElementsAt(s, c - 1, d + 1))
  {
    hide ElementsAt, SkipWhitespace;
  }

  lemma ElementsRead(s: bytes, o: nat, d: nat) returns (v: Json, f: nat, c: nat)
    requires o < |s| && d <= NESTING_LIMIT && ElementsAt(s, o, d).Success?
    ensures ParseValueAt(s, SkipWhitespace(s, o + 1), d) == Success(v, f)
    ensures o < f <= c == SkipWhitespace(s, f) < |s| && (s[c] == COMMA || s[c] == RBRACKET)
    ensures s[c] == RBRACKET ==> ElementsAt(s, o, d) == Success(Item(v, NoItem), c + 1)
    ensures s[c] == COMMA ==>
              ElementsAt(s, c, d).Success? && ElementsAt(s, o, d) == AfterItems(Item(v, NoItem), ElementsAt(s, c, d))
  {
    hide ParseValueAt, SkipWhitespace, AfterItems;
    v, f := ElementAt(s, o, d).value, ElementAt(s, o, d).offset;
    c := SkipWhitespace(s, f);
    if s[c] == COMMA {
      Unfailed(Item(v, NoItem), ElementsAt(s, c, d));
    }
  }

  lemma Unfailed(done: Items, r: Outcome<Items>)
    ensures AfterItems(done, r).Success? <==> r.Success?
  {}

  lemma ElementsReads(s: bytes, o: nat, d: nat, v: Json, f: nat, c: nat)
    requires o < |s| && d <= NESTING_LIMIT && ParseValueAt(s, SkipWhitespace(s, o + 1), d) == Success(v, f)
    requires f <= |s| && c == SkipWhitespace(s, f) < |s|
    ensures o < f <= c
    ensures s[c] == RBRACKET ==> ElementsAt(s, o, d) == Success(Item(v, NoItem), c + 1)
    ensures s[c] == COMMA ==> ElementsAt(s, o, d) == AfterItems(Item(v, NoItem), ElementsAt(s, c, d))
  {
    hide ParseValueAt, SkipWhitespace, AfterItems;
    assert ElementAt(s, o, d) == Success(v, f);
  }

  lemma ObjectRead(s: bytes, p: nat, d: nat) returns (c: nat)
    requires p < |s| && s[p] == LBRACE && d <= NESTING_LIMIT && ParseObjectAt(s, p, d).Success?
    ensures d < NESTING_LIMIT && p < c == SkipWhitespace(s, p + 1) < |s|
    ensures s[c] == RBRACE ==> ParseObjectAt(s, p, d) == Success(Obj(NoMember), c + 1)
    ensures s[c] != RBRACE ==>
              MembersAt(s, c - 1, d + 1).Success? && ParseObjectAt(s, p, d) == InObject(MembersAt(s, c - 1, d + 1))
  {
    hide MembersAt, SkipWhitespace;
    c := SkipWhitespace(s, p + 1);
  }

  lemma ObjectReads(s: bytes, p: nat, d: nat, c: nat)
    requires p < |s| && s[p] == LBRACE && d < NESTING_LIMIT && p < c == SkipWhitespace(s, p + 1) < |s|
    ensures s[c] == RBRACE ==> ParseObjectAt(s, p, d) == Success(Obj(NoMember), c + 1)
    ensures s[c] != RBRACE ==> ParseObjectAt(s, p, d) == InObject(MembersAt(s, c - 1, d + 1))
  {
    hide MembersAt, SkipWhitespace;
  }

  lemma KeyRead(s: bytes, o: nat, d: nat) returns (k: nat, x: nat, c: nat)
    requires o < |s| && KeyAt(s, o, d).Success?
    ensures o + 1 <= k == SkipWhitespace(s, o + 1) < |s| && ParseStringAt(s, k, d) == Success(KeyAt(s, o, d).value, x)
    ensures k < x <= c == SkipWhitespace(s, x) < |s| && s[c] == COLON && KeyAt(s, o, d).offset == SkipWhitespace(s,
          c + 1)
  {
    hide ParseStringAt, SkipWhitespace;
    k := SkipWhitespace(s, o + 1);
    x := ParseStringAt(s, k, d).offset;
    c := SkipWhitespace(s, x);
  }

  lemma KeyReads(s: bytes, o: nat, d: nat, k: nat, key: bytes, x: nat, c: nat)
    requires o + 1 < |s| && k == SkipWhitespace(s, o + 1) < |s| && ParseStringAt(s, k, d) == Success(key, x)
    requires x <= c == SkipWhitespace(s, x) < |s| && s[c] == COLON
    ensures KeyAt(s, o, d) == Success(key, SkipWhitespace(s, c + 1))
  {
    hide ParseStringAt, SkipWhitespace;
  }

  lemma MembersRead(s: bytes, o: nat, d: nat) returns (m: Members, f: nat, c: nat)
    requires o < |s| && d <= NESTING_LIMIT && MembersAt(s, o, d).Success?
    ensures MemberAt(s, o, d) == Success(m, f)
    ensures o < f <= c == SkipWhitespace(s, f) < |s| && (s[c] == COMMA || s[c] == RBRACE)
    ensures s[c] == RBRACE ==> MembersAt(s, o, d) == Success(m, c + 1)
    ensures s[c] == COMMA ==> MembersAt(s, c, d).Success? && MembersAt(s, o, d) == AfterMembers(m, MembersAt(s, c, d))
  {
    hide MemberAt, SkipWhitespace, AfterMembers;
    m, f := MemberAt(s, o, d).value, MemberAt(s, o, d).offset;
    c := SkipWhitespace(s, f);
    if s[c] == COMMA {
      UnfailedMembers(m, MembersAt(s, c, d));
    }
  }

  lemma UnfailedMembers(done: Members, r: Outcome<Members>)
    ensures AfterMembers(done, r).Success? <==> r.Success?
  {}

  lemma MembersReads(s: bytes, o: nat, d: nat, m: Members, f: nat, c: nat)
    requires o < |s| && d <= NESTING_LIMIT && MemberAt(s, o, d) == Success(m, f)
    requires f <= |s| && c == SkipWhitespace(s, f) < |s|
    ensures o < f <= c
    ensures s[c] == RBRACE ==> MembersAt(s, o, d) == Success(m, c + 1)
    ensures s[c] == COMMA ==> MembersAt(s, o, d) == AfterMembers(m, MembersAt(s, c, d))
  {
    hide MemberAt, SkipWhitespace, AfterMembers;
  }

  lemma MemberRead(s: bytes, o: nat, d: nat) returns (key: bytes, c: nat, v: Json, f: nat)
    requires o < |s| && d <= NESTING_LIMIT && MemberAt(s, o, d).Success?
    ensures KeyAt(s, o, d) == Success(key, c) && o < c <= |s| && ParseValueAt(s, c, d) == Success(v, f)
    ensures MemberAt(s, o, d) == Success(Member(key, v, NoMember), f)
  {
    hide KeyAt, ParseValueAt;
    key, c := KeyAt(s, o, d).value, KeyAt(s, o, d).offset;
    v, f := ParseValueAt(s, c, d).value, ParseValueAt(s, c, d).offset;
  }

  lemma MemberReads(s: bytes, o: nat, d: nat, key: bytes, c: nat, v: Json, f: nat)
    requires o < |s| && d <= NESTING_LIMIT && KeyAt(s, o, d) == Success(key, c) && c <= |s|
    requires ParseValueAt(s, c, d) == Success(v, f)
    ensures MemberAt(s, o, d) == Success(Member(key, v, NoMember), f)
  {
    hide KeyAt, ParseValueAt;
  }

  // ----- both texts, token by token

  /** The parser skips white space from p in one text and from q in the other. */
  lemma SkipMatches(t: bytes, p: nat, u: bytes, q: nat)
    requires NulFree(t) && NulFree(u) && Match(t, p, u, q) && Clear(t, SkipRun(t, p))
    ensures var s, r := Terminated(t), Terminated(u);
            var p', q' := SkipWhitespace(s, p), SkipWhitespace(r, q);
            && p' == SkipRun(t, p) <= |t| && q <= q' <= |u| && Match(t, p', u, q') && s[p'] == r[q']
  {
    MatchStop(t, p, u, q);
    SkipIsRun(t, p);
    SkipIsRun(u, q);
  }

  /** No value begins with a slash, and none at the terminator. */
  lemma ValueBegins(t: bytes, p: nat, d: nat)
    requires p <= |t| && d <= NESTING_LIMIT && ParseValueAt(Terminated(t), p, d).Success?
    ensures p < |t| && t[p] != SLASH && 32 < t[p] < 0x80
  {
    hide ParseStringAt, ParseArrayAt, ParseObjectAt, ParseNumberAt;
    ValueCases(Terminated(t), p, d);
  }

  /** Skipping to a value: nothing but white space is in the way. */
  lemma SkipToValue(t: bytes, p: nat, u: bytes, q: nat, d: nat)
    requires NulFree(t) && NulFree(u) && Match(t, p, u, q) && d <= NESTING_LIMIT
    requires ParseValueAt(Terminated(t), SkipWhitespace(Terminated(t), p), d).Success?
    ensures var p', q' := SkipWhitespace(Terminated(t), p), SkipWhitespace(Terminated(u), q);
            p' <= |t| && q' <= |u| && Match(t, p', u, q') && Terminated(t)[p'] == Terminated(u)[q']
  {
    hide ParseValueAt, Match;
    SkipIsRun(t, p);
    ValueBegins(t, SkipRun(t, p), d);
    SkipMatches(t, p, u, q);
  }

  predicate IsMark(c: byte) {
    c == COMMA || c == COLON || c == RBRACKET || c == RBRACE
  }

  /** Skipping to a byte that the parser consumes by itself. */
  lemma MarkMatches(t: bytes, p: nat, u: bytes, q: nat, c: nat)
    requires NulFree(t) && NulFree(u) && Match(t, p, u, q) && p <= |t|
    requires c == SkipWhitespace(Terminated(t), p) < |Terminated(t)| && IsMark(Terminated(t)[c])
    ensures q <= |u|
    ensures var c' := SkipWhitespace(Terminated(u), q);
            && c < |t| && q <= c' < |u| && Match(t, c + 1, u, c' + 1)
            && Terminated(t)[c] == Terminated(u)[c']
  {
    SkipIsRun(t, p);
    SkipMatches(t, p, u, q);
    MatchPlain(t, c, u, SkipWhitespace(Terminated(u), q));
  }

  /** A value after which the parser finds a comma or a bracket. */
  lemma MarkFollows(t: bytes, p: nat, c: nat)
    requires NulFree(t) && p <= c < |Terminated(t)| && c == SkipWhitespace(Terminated(t), p)
    requires var m := Terminated(t)[c]; m == COMMA || m == RBRACKET || m == RBRACE
    ensures p <= |t| && Follows(t, p) && IsMark(Terminated(t)[c])
  {
    SkipIsRun(t, p);
  }

  lemma LiteralValueMatches(t: bytes, p: nat, u: bytes, q: nat, d: nat) returns (q': nat)
    requires Match(t, p, u, q) && d <= NESTING_LIMIT
    requires NullAt(Terminated(t), p) || FalseAt(Terminated(t), p) || TrueAt(Terminated(t), p)
    ensures var r := ParseValueAt(Terminated(t), p, d);
            r.Success? && r.offset <= |t| && Match(t, r.offset, u, q') && ParseValueAt(Terminated(u), q,
                  d) == Success(r.value, q')
  {
    hide Match, At;
    LiteralsStand(Terminated(t), p);
    LiteralsStand(Terminated(u), q);
    LiteralsArePlain();
    MatchInside(t, p, u, q);
    ValueCases(Terminated(t), p, d);
    ValueCases(Terminated(u), q, d);
    var x := if NullAt(Terminated(t), p) then NULL_TEXT else if FalseAt(Terminated(t), p) then FALSE_TEXT
          else TRUE_TEXT;
    LiteralMatches(t, p, u, q, x);
    q' := q + |x|;
  }

  lemma MatchInside(t: bytes, p: nat, u: bytes, q: nat)
    requires Match(t, p, u, q)
    ensures p <= |t| && q <= |u|
  {}

  lemma StringValueMatches(t: bytes, p: nat, u: bytes, q: nat, d: nat) returns (q': nat)
    requires Match(t, p, u, q) && d <= NESTING_LIMIT
    requires p <= |t| && Terminated(t)[p] == QUOTE && ParseValueAt(Terminated(t), p, d).Success?
    ensures var r := ParseValueAt(Terminated(t), p, d);
            r.offset <= |t| && Match(t, r.offset, u, q') && ParseValueAt(Terminated(u), q, d) == Success(r.value, q')
  {
    hide Match, Decode, ScanFrom, UpToNul, ParseValueAt;
    ValueCases(Terminated(t), p, d);
    q' := StringMatches(t, p, u, q, d);
    ValueCases(Terminated(u), q, d);
  }

  lemma NumberValueMatches(t: bytes, p: nat, u: bytes, q: nat, d: nat) returns (q': nat)
    requires NulFree(t) && Match(t, p, u, q) && d <= NESTING_LIMIT
    requires p < |t| && (t[p] == MINUS || IsDigit(t[p])) && ParseValueAt(Terminated(t), p, d).Success?
    requires var e := ParseValueAt(Terminated(t), p, d).offset; e <= |t| && Follows(t, e)
    ensures var r := ParseValueAt(Terminated(t), p, d);
            Match(t, r.offset, u, q') && ParseValueAt(Terminated(u), q, d) == Success(r.value, q')
  {
    hide ParseValueAt, ParseNumberAt, M.MinifyFrom;
    ValueCases(Terminated(t), p, d);
    MatchPlain(t, p, u, q);
    NumberMatches(t, p, u, q);
    ValueCases(Terminated(u), q, d);
    q' := q + ParseNumberAt(Terminated(t), p).consumed;
  }

  /** The same value is read from both texts. */
  lemma {:induction false} ValueMatches(t: bytes, p: nat, u: bytes, q: nat, d: nat) returns (q': nat)
    requires NulFree(t) && NulFree(u) && p <= |t| && Match(t, p, u, q) && d <= NESTING_LIMIT
    requires var r := ParseValueAt(Terminated(t), p, d); r.Success? && r.offset <= |t| && Follows(t, r.offset)
    ensures var r := ParseValueAt(Terminated(t), p, d);
            q <= |u| && Match(t, r.offset, u, q') && ParseValueAt(Terminated(u), q, d) == Success(r.value, q')
    decreases |t| - p, 4
  {
    hide *;
    ValueBegins(t, p, d);
    ValueCases(Terminated(t), p, d);
    MatchInside(t, p, u, q);
    if NullAt(Terminated(t), p) || FalseAt(Terminated(t), p) || TrueAt(Terminated(t), p) {
      q' := LiteralValueMatches(t, p, u, q, d);
    } else {
      TerminatedAt(t, p);
      if t[p] == QUOTE {
        q' := StringValueMatches(t, p, u, q, d);
      } else if t[p] == LBRACKET {
        q' := ArrayMatches(t, p, u, q, d);
      } else if t[p] == LBRACE {
        q' := ObjectMatches(t, p, u, q, d);
      } else {
        q' := NumberValueMatches(t, p, u, q, d);
      }
    }
  }

  lemma TerminatedAt(t: bytes, p: nat)
    requires p <= |t|
    ensures |Terminated(t)| == |t| + 1 && Terminated(t)[p] == if p < |t| then t[p] else NUL
  {}

  lemma {:induction false} ArrayMatches(t: bytes, p: nat, u: bytes, q: nat, d: nat) returns (q': nat)
    requires NulFree(t) && NulFree(u) && p < |t| && Match(t, p, u, q) && d <= NESTING_LIMIT
    requires t[p] == LBRACKET && ParseValueAt(Terminated(t), p, d).Success?
    ensures var r := ParseValueAt(Terminated(t), p, d);
            r.offset <= |t| && Match(t, r.offset, u, q') && ParseValueAt(Terminated(u), q, d) == Success(r.value, q')
    decreases |t| - p, 3
  {
    hide ParseValueAt, ParseArrayAt, ElementsAt, Match, SkipWhitespace;
    var s, r := Terminated(t), Terminated(u);
    ValueCases(s, p, d);
    MatchPlain(t, p, u, q);
    ValueCases(r, q, d);
    var c := ArrayRead(s, p, d);
    var c' := SkipWhitespace(r, q + 1);
    if s[c] == RBRACKET {
      MarkMatches(t, p + 1, u, q + 1, c);
      ArrayReads(r, q, d, c');
      q' := c' + 1;
    } else {
      ElementsBegin(t, p + 1, c, u, q + 1, d + 1);
      q' := ElementsMatch(t, c - 1, u, c' - 1, d + 1);
      ArrayReads(r, q, d, c');
    }
  }

  /** The first element is reached in both texts, and the loop finds it there. */
  lemma ElementsBegin(t: bytes, p: nat, c: nat, u: bytes, q: nat, d: nat)
    requires NulFree(t) && NulFree(u) && 0 < p <= |t| && 0 < q && Match(t, p, u, q) && d <= NESTING_LIMIT
    requires p <= c == SkipWhitespace(Terminated(t), p) < |Terminated(t)| && Terminated(t)[c] != RBRACKET
    requires ElementsAt(Terminated(t), c - 1, d).Success?
    ensures q <= |u|
    ensures var c' := SkipWhitespace(Terminated(u), q);
            && q <= c' <= |u| && c <= |t| && Match(t, c, u, c') && Terminated(u)[c'] != RBRACKET
            && SkipWhitespace(Terminated(t), c) == c && SkipWhitespace(Terminated(u), c') == c'
  {
    hide ParseValueAt, ElementsAt, M.MinifyFrom;
    SkipAgain(t, p);
    SkipAgain(u, q);
    var v, f, e := ElementsRead(Terminated(t), c - 1, d);
    SkipToValue(t, p, u, q, d);
  }

  /** Where skipping has stopped it stays. */
  lemma SkipAgain(t: bytes, p: nat)
    requires NulFree(t) && p <= |t|
    ensures var c := SkipWhitespace(Terminated(t), p);
            p <= c <= |t| && SkipWhitespace(Terminated(t), c) == c
  {
    SkipIsRun(t, p);
    SkipIsRun(t, SkipRun(t, p));
  }

  lemma NextElementBegins(t: bytes, c: nat, u: bytes, c': nat, d: nat)
    requires NulFree(t) && NulFree(u) && c < |t| && Match(t, c + 1, u, c' + 1) && d <= NESTING_LIMIT
    requires ElementsAt(Terminated(t), c, d).Success?
    ensures c' < |u|
    ensures var p, q := SkipWhitespace(Terminated(t), c + 1), SkipWhitespace(Terminated(u), c' + 1);
            p <= |t| && Match(t, p, u, q)
  {
    hide ParseValueAt, ElementsAt, M.MinifyFrom;
    var v, f, e := ElementsRead(Terminated(t), c, d);
    SkipToValue(t, c + 1, u, c' + 1, d);
  }

  lemma AfterSame(done: Items, x: Outcome<Items>, y: Outcome<Items>)
    requires x.Success? && y == Success(x.value, y.offset)
    ensures AfterItems(done, y) == Success(AfterItems(done, x).value, y.offset)
    ensures AfterItems(done, x).Success? && AfterItems(done, x).offset == x.offset
  {}

  /** The loops of parse_array run through both texts in step. */
  lemma {:induction false} ElementsMatch(t: bytes, o: nat, u: bytes, o': nat, d: nat) returns (e': nat)
    requires NulFree(t) && NulFree(u) && o < |t| && o' < |u| && d <= NESTING_LIMIT
    requires var p, q := SkipWhitespace(Terminated(t), o + 1), SkipWhitespace(Terminated(u), o' + 1);
             p <= |t| && Match(t, p, u, q)
    requires ElementsAt(Terminated(t), o, d).Success?
    ensures var r := ElementsAt(Terminated(t), o, d);
            r.offset <= |t| && Match(t, r.offset, u, e') && ElementsAt(Terminated(u), o', d) == Success(r.value, e')
    decreases |t| - o, 2
  {
    hide *;
    var s, r := Terminated(t), Terminated(u);
    TerminatedAt(t, o);
    TerminatedAt(u, o');
    var p, q := SkipWhitespace(s, o + 1), SkipWhitespace(r, o' + 1);
    var v, f, c := ElementsRead(s, o, d);
    MarkFollows(t, f, c);
    var f' := ValueMatches(t, p, u, q, d);
    MarkMatches(t, f, u, f', c);
    var c' := SkipWhitespace(r, f');
    ElementsReads(r, o', d, v, f', c');
    if s[c] == RBRACKET {
      e' := c' + 1;
    } else {
      NextElementBegins(t, c, u, c', d);
      e' := ElementsMatch(t, c, u, c', d);
      AfterSame(Item(v, NoItem), ElementsAt(s, c, d), ElementsAt(r, c', d));
    }
  }

  lemma {:induction false} ObjectMatches(t: bytes, p: nat, u: bytes, q: nat, d: nat) returns (q': nat)
    requires NulFree(t) && NulFree(u) && p < |t| && Match(t, p, u, q) && d <= NESTING_LIMIT
    requires t[p] == LBRACE && ParseValueAt(Terminated(t), p, d).Success?
    ensures var r := ParseValueAt(Terminated(t), p, d);
            r.offset <= |t| && Match(t, r.offset, u, q') && ParseValueAt(Terminated(u), q, d) == Success(r.value, q')
    decreases |t| - p, 3
  {
    hide ParseValueAt, ParseObjectAt, MembersAt, Match, SkipWhitespace;
    var s, r := Terminated(t), Terminated(u);
    ValueCases(s, p, d);
    MatchPlain(t, p, u, q);
    ValueCases(r, q, d);
    var c := ObjectRead(s, p, d);
    var c' := SkipWhitespace(r, q + 1);
    if s[c] == RBRACE {
      MarkMatches(t, p + 1, u, q + 1, c);
      ObjectReads(r, q, d, c');
      q' := c' + 1;
    } else {
      MembersBegin(t, p + 1, c, u, q + 1, d + 1);
      q' := MembersMatch(t, c - 1, u, c' - 1, d + 1);
      ObjectReads(r, q, d, c');
    }
  }

  /** Where a key is read, skipping led to its quote. */
  lemma KeyBegins(t: bytes, o: nat, d: nat)
    requires o < |Terminated(t)| && KeyAt(Terminated(t), o, d).Success?
    ensures o + 1 < |Terminated(t)| && SkipWhitespace(Terminated(t), o + 1) < |Terminated(t)|
    ensures Terminated(t)[SkipWhitespace(Terminated(t), o + 1)] == QUOTE
  {
    hide ScanFrom, Decode, UpToNul;
    var k, x, c := KeyRead(Terminated(t), o, d);
  }

  lemma SkipToKey(t: bytes, p: nat, u: bytes, q: nat)
    requires NulFree(t) && NulFree(u) && Match(t, p, u, q)
    requires var k := SkipWhitespace(Terminated(t), p); k < |Terminated(t)| && Terminated(t)[k] == QUOTE
    ensures q <= |u|
    ensures var k, k' := SkipWhitespace(Terminated(t), p), SkipWhitespace(Terminated(u), q);
            k < |t| && q <= k' <= |u| && Match(t, k, u, k') && Terminated(u)[k'] == QUOTE
  {
    SkipIsRun(t, p);
    SkipMatches(t, p, u, q);
  }

  lemma MembersBegin(t: bytes, p: nat, c: nat, u: bytes, q: nat, d: nat)
    requires NulFree(t) && NulFree(u) && 0 < p <= |t| && 0 < q && Match(t, p, u, q) && d <= NESTING_LIMIT
    requires p <= c == SkipWhitespace(Terminated(t), p) < |Terminated(t)|
    requires MembersAt(Terminated(t), c - 1, d).Success?
    ensures q <= |u|
    ensures var c' := SkipWhitespace(Terminated(u), q);
            && q <= c' <= |u| && c <= |t| && Match(t, c, u, c') && Terminated(u)[c'] != RBRACE
            && SkipWhitespace(Terminated(t), c) == c && SkipWhitespace(Terminated(u), c') == c'
  {
    hide MembersAt, MemberAt, KeyAt, ParseValueAt, M.MinifyFrom;
    SkipAgain(t, p);
    SkipAgain(u, q);
    var m, f, e := MembersRead(Terminated(t), c - 1, d);
    var key, x, v, g := MemberRead(Terminated(t), c - 1, d);
    KeyBegins(t, c - 1, d);
    SkipToKey(t, p, u, q);
  }

  lemma NextMemberBegins(t: bytes, c: nat, u: bytes, c': nat, d: nat)
    requires NulFree(t) && NulFree(u) && c < |t| && Match(t, c + 1, u, c' + 1) && d <= NESTING_LIMIT
    requires MembersAt(Terminated(t), c, d).Success?
    ensures c' < |u|
    ensures var p, q := SkipWhitespace(Terminated(t), c + 1), SkipWhitespace(Terminated(u), c' + 1);
            p <= |t| && Match(t, p, u, q)
  {
    hide MembersAt, MemberAt, KeyAt, ParseValueAt, M.MinifyFrom;
    var m, f, e := MembersRead(Terminated(t), c, d);
    var key, x, v, g := MemberRead(Terminated(t), c, d);
    KeyBegins(t, c, d);
    SkipToKey(t, c + 1, u, c' + 1);
  }

  /** The key, its colon and the white space behind it, up to a value. */
  lemma KeyMatches(t: bytes, o: nat, u: bytes, o': nat, d: nat) returns (c': nat)
    requires NulFree(t) && NulFree(u) && o < |t| && o' < |u| && d <= NESTING_LIMIT
    requires var p, q := SkipWhitespace(Terminated(t), o + 1), SkipWhitespace(Terminated(u), o' + 1);
             p <= |t| && Match(t, p, u, q)
    requires KeyAt(Terminated(t), o, d).Success? && ParseValueAt(Terminated(t), KeyAt(Terminated(t), o, d).offset,
          d).Success?
    ensures var r := KeyAt(Terminated(t), o, d);
            r.offset <= |t| && Match(t, r.offset, u, c') && KeyAt(Terminated(u), o', d) == Success(r.value, c')
  {
    hide *;
    var s, r := Terminated(t), Terminated(u);
    TerminatedAt(t, o);
    TerminatedAt(u, o');
    var k, x, c := KeyRead(s, o, d);
    var k' := SkipWhitespace(r, o' + 1);
    var x' := StringMatches(t, k, u, k', d);
    ColonIsMark();
    MarkMatches(t, x, u, x', c);
    var e' := SkipWhitespace(r, x');
    TerminatedAt(t, c + 1);
    SkipToValue(t, c + 1, u, e' + 1, d);
    InsideText(u, k', x', e', o');
    KeyReads(r, o', d, k', KeyAt(s, o, d).value, x', e');
    c' := SkipWhitespace(r, e' + 1);
  }

  lemma ColonIsMark()
    ensures IsMark(COLON)
  {}

  lemma InsideText(u: bytes, k: nat, x: nat, e: nat, o: nat)
    requires o < |u| && k <= |u| && e < |u|
    ensures o + 1 < |Terminated(u)| && k < |Terminated(u)| && e < |Terminated(u)|
  {}

  lemma {:induction false} MemberMatches(t: bytes, o: nat, u: bytes, o': nat, d: nat) returns (f': nat)
    requires NulFree(t) && NulFree(u) && o < |t| && o' < |u| && d <= NESTING_LIMIT
    requires var p, q := SkipWhitespace(Terminated(t), o + 1), SkipWhitespace(Terminated(u), o' + 1);
             p <= |t| && Match(t, p, u, q)
    requires var r := MemberAt(Terminated(t), o, d); r.Success? && r.offset <= |t| && Follows(t, r.offset)
    ensures var r := MemberAt(Terminated(t), o, d);
            f' <= |u| && Match(t, r.offset, u, f') && MemberAt(Terminated(u), o', d) == Success(r.value, f')
    decreases |t| - o, 1
  {
    hide *;
    var s, r := Terminated(t), Terminated(u);
    TerminatedAt(t, o);
    TerminatedAt(u, o');
    var key, c, v, f := MemberRead(s, o, d);
    var c' := KeyMatches(t, o, u, o', d);
    f' := ValueMatches(t, c, u, c', d);
    MatchInside(t, f, u, f');
    TerminatedAt(u, c');
    MemberReads(r, o', d, key, c', v, f');
  }

  lemma AfterSameMembers(done: Members, x: Outcome<Members>, y: Outcome<Members>)
    requires x.Success? && y == Success(x.value, y.offset)
    ensures AfterMembers(done, y) == Success(AfterMembers(done, x).value, y.offset)
    ensures AfterMembers(done, x).Success? && AfterMembers(done, x).offset == x.offset
  {}

  /** The loops of parse_object run through both texts in step. */
  lemma {:induction false} MembersMatch(t: bytes, o: nat, u: bytes, o': nat, d: nat) returns (e': nat)
    requires NulFree(t) && NulFree(u) && o < |t| && o' < |u| && d <= NESTING_LIMIT
    requires var p, q := SkipWhitespace(Terminated(t), o + 1), SkipWhitespace(Terminated(u), o' + 1);
             p <= |t| && Match(t, p, u, q)
    requires MembersAt(Terminated(t), o, d).Success?
    ensures var r := MembersAt(Terminated(t), o, d);
            r.offset <= |t| && Match(t, r.offset, u, e') && MembersAt(Terminated(u), o', d) == Success(r.value, e')
    decreases |t| - o, 2
  {
    hide *;
    var s, r := Terminated(t), Terminated(u);
    TerminatedAt(t, o);
    TerminatedAt(u, o');
    var m, f, c := MembersRead(s, o, d);
    MarkFollows(t, f, c);
    var f' := MemberMatches(t, o, u, o', d);
    MarkMatches(t, f, u, f', c);
    TerminatedAt(u, f');
    var c' := SkipWhitespace(r, f');
    MembersReads(r, o', d, m, f', c');
    if s[c] == RBRACE {
      e' := c' + 1;
    } else {
      NextMemberBegins(t, c, u, c', d);
      e' := MembersMatch(t, c, u, c', d);
      AfterSameMembers(m, MembersAt(s, c, d), MembersAt(r, c', d));
    }
  }

  // ----- whole texts

  lemma {:induction false} MinifiedHasNoNul(t: bytes, p: nat)
    requires NulFree(t) && p <= |t| && M.MinifyFrom(t, p).Minified?
    ensures NulFree(M.MinifyFrom(t, p).out)
    decreases |t| - p
  {
    if p == |t| {
    } else if M.IsBlank(t[p]) {
      MinifiedHasNoNul(t, p + 1);
    } else if M.SlashThen(t, p, SLASH) {
      MinifiedHasNoNul(t, M.LineCommentEnd(t, p));
    } else if M.SlashThen(t, p, STAR) {
      MinifiedHasNoNul(t, M.BlockCommentEnd(t, p));
    } else if t[p] == QUOTE {
      MinifiedHasNoNul(t, M.StringEnd(t, p + 1).value);
    } else {
      MinifiedHasNoNul(t, p + 1);
    }
  }

  /** What an accepted text is made of: perhaps a byte order mark, a value, and white space around it. */
  lemma TextRead(t: bytes) returns (o: nat, p: nat, e: nat)
    requires NulFree(t) && ParseText(Terminated(t), true).Parsed?
    ensures var s := Terminated(t);
            && o == SkipBom(s) && p == SkipWhitespace(s, o) < |s|
            && ParseValueAt(s, p, 0) == Success(ParseText(s, true).value, e)
            && o <= p < e <= |t| && SkipWhitespace(s, e) == |t|
  {
    hide ParseValueAt, SkipWhitespace;
    var s := Terminated(t);
    o := SkipBom(s);
    p := SkipWhitespace(s, o);
    e := ParseValueAt(s, p, 0).offset;
    assert s[SkipWhitespace(s, e)] == NUL;
    assert forall i :: 0 <= i < |t| ==> t[i] in t && s[i] == t[i];
  }

  lemma TextReads(u: bytes, o: nat, p: nat, v: Json, e: nat)
    requires o == SkipBom(Terminated(u)) && p == SkipWhitespace(Terminated(u), o)
    requires ParseValueAt(Terminated(u), p, 0) == Success(v, e) && e <= |u| && SkipWhitespace(Terminated(u), e) == |u|
    ensures ParseText(Terminated(u), true) == Parsed(v, |u|)
  {
    hide ParseValueAt, SkipWhitespace, SkipBom;
  }

  /** An accepted text does not end in a backslash. */
  lemma AcceptedEnds(t: bytes, e: nat, p: nat)
    requires NulFree(t) && p < e <= |t| && ParseValueAt(Terminated(t), p, 0).Success?
    requires ParseValueAt(Terminated(t), p, 0).offset == e && SkipWhitespace(Terminated(t), e) == |t|
    ensures t != [] && t[|t| - 1] != BACKSLASH
  {
    hide ParseValueAt;
    ValueEnds(Terminated(t), p, 0);
    if e < |t| {
      SkipIsRun(t, e);
      StopRunsOver(t, e, |t| - 1);
    }
  }

  lemma {:induction false} StopRunsOver(t: bytes, p: nat, i: nat)
    requires p <= |t| && p <= i < SkipRun(t, p)
    ensures t[i] <= 32
    decreases |t| - p
  {
    if p < i {
      StopRunsOver(t, p + 1, i);
    }
  }

  predicate BomAt(t: bytes) {
    |t| >= 3 && t[0] == 0xEF && t[1] == 0xBB && t[2] == 0xBF
  }

  lemma SkipBomIs(t: bytes)
    ensures SkipBom(Terminated(t)) == if |t| > 3 && BomAt(t) then 3 else 0
  {}

  /** The byte order mark is kept. */
  lemma BomIsKept(t: bytes, u: bytes)
    requires Match(t, 0, u, 0) && BomAt(t)
    ensures BomAt(u) && Match(t, 3, u, 3)
  {
    hide M.MinifyFrom, Match;
    MatchPlain(t, 0, u, 0);
    MatchPlain(t, 1, u, 1);
    MatchPlain(t, 2, u, 2);
  }

  /** No other text turns into one that begins with the mark. */
  lemma NoBomAppears(t: bytes, p: nat, u: bytes)
    requires Match(t, 0, u, 0) && p == SkipRun(t, 0) < |t| && t[p] != SLASH && t[p] < 0x80
    ensures !BomAt(u)
  {
    hide M.MinifyFrom;
    MatchStop(t, 0, u, 0);
    if SkipRun(u, 0) > 0 {
      StopRunsOver(u, 0, 0);
    }
  }

  /** Where the parser starts, in both texts. */
  lemma StartMatches(t: bytes, u: bytes) returns (p': nat)
    requires NulFree(t) && NulFree(u) && Match(t, 0, u, 0) && ParseText(Terminated(t), true).Parsed?
    ensures var p := SkipWhitespace(Terminated(t), SkipBom(Terminated(t)));
            p <= |t| && p' <= |u| && Match(t, p, u, p')
    ensures p' < |u| ==> p' == SkipWhitespace(Terminated(u), SkipBom(Terminated(u)))
  {
    hide ParseValueAt, Match, SkipBom, ParseText;
    var o, p, e := TextRead(t);
    ValueBegins(t, p, 0);
    SkipBomIs(t);
    SkipBomIs(u);
    SkipIsRun(t, o);
    if o == 3 {
      BomIsKept(t, u);
    } else if !BomAt(t) {
      NoBomAppears(t, p, u);
    }
    SkipMatches(t, o, u, o);
    p' := SkipWhitespace(Terminated(u), o);
  }

  /**
   A text that the parser accepts is minified to one that it accepts for the same tree, all of it:
   nothing but white space was taken out.
   */
  lemma MinifyKeepsMeaning(t: bytes)
    requires NulFree(t) && ParseText(Terminated(t), true).Parsed?
    ensures var m := M.MinifyFrom(t, 0);
            && m.Minified?
            && ParseText(Terminated(m.out), true) == Parsed(ParseText(Terminated(t), true).value, |m.out|)
  {
    hide ParseValueAt, SkipBom, ParseText, SkipWhitespace;
    var o, p, e := TextRead(t);
    AcceptedEnds(t, e, p);
    MinifyFinishes(t, 0);
    MinifiedHasNoNul(t, 0);
    var u := M.MinifyFrom(t, 0).out;
    assert u[0..] == u;
    var p' := StartMatches(t, u);
    SkipIsRun(t, e);
    var e' := ValueMatches(t, p, u, p', 0);
    SkipMatches(t, e, u, e');
    MatchEnd(t, u, SkipWhitespace(Terminated(u), e'));
    TextReads(u, SkipBom(Terminated(u)), p', ParseText(Terminated(t), true).value, e');
  }
}
