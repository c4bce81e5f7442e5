/** cJSON_Minify: what it leaves of a text, and the loop that writes it over the text itself. */
module Minify {
  import opened Bytes
  import opened Wrappers

  /**
   What becomes of a text.  It is left `Open` when it ends inside a string right behind a
   backslash: the copying of the escaped byte then takes the terminator for it.
   */
  datatype Minified = Open | Minified(out: bytes)

  function Copied(front: bytes, r: Minified): Minified {
    if r.Open? then r else Minified(front + r.out)
  }

  lemma CopiedTwice(a: bytes, b: bytes, r: Minified)
    ensures Copied(a, Copied(b, r)) == Copied(a + b, r)
    ensures Copied([], r) == r
  {
    if r.Minified? {
      ConcatAssociates(a, b, r.out);
      assert [] + r.out == r.out;
    }
  }

  predicate IsBlank(c: byte) {
    c == SPACE || c == TAB || c == RETURN || c == NEWLINE
  }

  /** A byte that is copied whatever stands around it. */
  predicate IsPlain(c: byte) {
    !IsBlank(c) && c != SLASH && c != QUOTE
  }

  /** The newline that ends a comment, or the end of the text. */
  function LineCommentEnd(s: bytes, p: nat): (q: nat)
    requires p <= |s|
    ensures p <= q <= |s| && (p < |s| && s[p] == SLASH ==> p < q)
    decreases |s| - p
  {
    if p < |s| && s[p] != NEWLINE then LineCommentEnd(s, p + 1) else p
  }

  /** Behind the first star and slash, or the end of the text. */
  function BlockCommentEnd(s: bytes, p: nat): (q: nat)
    requires p <= |s|
    ensures p <= q <= |s| && (p < |s| && s[p] == SLASH ==> p < q)
    decreases |s| - p
  {
    if p == |s| then p
    else if s[p] == STAR && p + 1 < |s| && s[p + 1] == SLASH then p + 2
    else BlockCommentEnd(s, p + 1)
  }

  /** Behind the quote that closes a string, or the end of the text; None when an escape is cut off. */
  function StringEnd(s: bytes, p: nat): (q: Option<nat>)
    requires p <= |s|
    ensures q.Some? ==> p <= q.value <= |s|
    decreases |s| - p
  {
    if p == |s| then Some(p)
    else if s[p] == QUOTE then Some(p + 1)
    else if s[p] == BACKSLASH then if p + 1 == |s| then None else StringEnd(s, p + 2)
    else StringEnd(s, p + 1)
  }

  predicate SlashThen(s: bytes, p: nat, c: byte)
    requires p < |s|
  {
    s[p] == SLASH && p + 1 < |s| && s[p + 1] == c
  }

  /** What is left of the text from p on, p being outside of strings and comments. */
  function MinifyFrom(s: bytes, p: nat): (r: Minified)
    requires p <= |s|
    ensures r.Minified? ==> |r.out| <= |s| - p
    decreases |s| - p
  {
    if p == |s| then Minified([])
    else if IsBlank(s[p]) then MinifyFrom(s, p + 1)
    else if SlashThen(s, p, SLASH) then MinifyFrom(s, LineCommentEnd(s, p))
    else if SlashThen(s, p, STAR) then MinifyFrom(s, BlockCommentEnd(s, p))
    else if s[p] == QUOTE then
      var q := StringEnd(s, p + 1);
      if q.None? then Open else Copied(s[p..q.value], MinifyFrom(s, q.value))
    else Copied([s[p]], MinifyFrom(s, p + 1))
  }

  // ----- the loop, reading at p and writing at into

  /** From `into` on the buffer is still what it was: a text, its terminator, other bytes. */
  ghost predicate Untouched(json: array<byte>, was: bytes, text: bytes, into: nat)
    reads json
  {
    && text <= was && |text| < |was| == json.Length && was[|text|] == NUL && NulFree(text)
    && forall j :: into <= j < |was| ==> json[j] == was[j]
  }

  /**
   The text is minified in place.  What is written never catches up with what is read, the
   result is terminated, and the bytes behind its terminator keep their values.
   */
  method MinifyInPlace(json: array<byte>) returns (done: bool)
    requires NUL in json[..]
    modifies json
    ensures var r := MinifyFrom(UpToNul(old(json[..])), 0);
            && done == r.Minified?
            && (done ==> json[..] == r.out + [NUL] + old(json[..])[|r.out| + 1..])
  {
    ghost var was := json[..];
    ghost var text := UpToNul(was);
    TerminatorFollows(was);
    var p: nat, into: nat := 0, 0;
    CopiedTwice([], [], MinifyFrom(text, 0));
    while json[p] != NUL
      invariant into <= p <= |text| && Untouched(json, was, text, into)
      invariant MinifyFrom(text, 0) == Copied(json[..into], MinifyFrom(text, p))
      decreases |text| - p
    {
      done, p, into := MinifyToken(json, was, text, p, into);
      if !done {
        return;
      }
    }
    json[into] := NUL;
    done := true;
    assert json[..into] + [] == json[..into];
    assert json[..] == json[..into] + [NUL] + was[into + 1..];
  }

  /** The body of the loop: white space, a comment, a string, or one byte of something else. */
  method MinifyToken(json: array<byte>, ghost was: bytes, ghost text: bytes, p: nat, into: nat)
    returns (done: bool, p': nat, into': nat)
    requires into <= p < |text| && Untouched(json, was, text, into)
    modifies json
    ensures !done ==> MinifyFrom(text, p) == Open
    ensures done ==>
              && p < p' <= |text| && into' <= p' && Untouched(json, was, text, into')
              && Copied(json[..into'], MinifyFrom(text, p')) == Copied(old(json[..into]), MinifyFrom(text, p))
  {
    done, p', into' := true, p, into;
    if IsBlank(json[p]) {
      p' := p + 1;
    } else if json[p] == SLASH && json[p + 1] == SLASH {
      p' := SkipLineComment(json, was, text, into, p);
    } else if json[p] == SLASH && json[p + 1] == STAR {
      p' := SkipBlockComment(json, was, text, into, p);
    } else if json[p] == QUOTE {
      done, p', into' := CopyString(json, was, text, p, into);
    } else {
      CopiedTwice(json[..into], [json[p]], MinifyFrom(text, p + 1));
      into' := CopyByte(json, p, into);
      p' := p + 1;
    }
  }

  lemma {:induction false} TerminatorFollows(s: bytes)
    requires NUL in s
    ensures |UpToNul(s)| < |s|
    decreases |s|
  {
    if s[0] != NUL {
      assert s == [s[0]] + s[1..];
      TerminatorFollows(s[1..]);
    }
  }

  method CopyByte(json: array<byte>, p: nat, into: nat) returns (into': nat)
    requires into <= p < json.Length
    modifies json
    ensures into' == into + 1 && json[..into'] == old(json[..into]) + [old(json[p])]
    ensures forall j :: into' <= j < json.Length ==> json[j] == old(json[j])
  {
    json[into] := json[p];
    into' := into + 1;
  }

  method SkipLineComment(json: array<byte>, ghost was: bytes, ghost text: bytes, ghost into: nat, p: nat)
            returns (p': nat)
    requires into <= p < |text| && Untouched(json, was, text, into)
    ensures p' == LineCommentEnd(text, p)
  {
    p' := p;
    while json[p'] != NUL && json[p'] != NEWLINE
      invariant p <= p' <= |text| && LineCommentEnd(text, p') == LineCommentEnd(text, p)
      decreases |text| - p'
    {
      p' := p' + 1;
    }
  }

  method SkipBlockComment(json: array<byte>, ghost was: bytes, ghost text: bytes, ghost into: nat, p: nat)
            returns (p': nat)
    requires into <= p < |text| && Untouched(json, was, text, into)
    ensures p' == BlockCommentEnd(text, p)
  {
    p' := p;
    while json[p'] != NUL && !(json[p'] == STAR && json[p' + 1] == SLASH)
      invariant p <= p' <= |text| && BlockCommentEnd(text, p') == BlockCommentEnd(text, p)
      decreases |text| - p'
    {
      p' := p' + 1;
    }
    if json[p'] != NUL {
      p' := p' + 2;
    }
  }

  /** The quote at p and the string behind it are copied; an escaped byte is copied with its backslash. */
  method CopyString(json: array<byte>, ghost was: bytes, ghost text: bytes, p: nat, into: nat)
    returns (done: bool, p': nat, into': nat)
    requires into <= p < |text| && Untouched(json, was, text, into) && text[p] == QUOTE
    modifies json
    ensures !done ==> MinifyFrom(text, p) == Open
    ensures done ==>
              && p < p' <= |text| && into' <= p' && Untouched(json, was, text, into')
              && Copied(json[..into'], MinifyFrom(text, p')) == Copied(old(json[..into]), MinifyFrom(text, p))
  {
    hide MinifyFrom, Copied;
    ghost var front := json[..into];
    into' := CopyByte(json, p, into);
    p' := p + 1;
    while json[p'] != NUL && json[p'] != QUOTE
      invariant p < p' <= |text| && into' <= p' && Untouched(json, was, text, into')
      invariant StringEnd(text, p') == StringEnd(text, p + 1)
      invariant json[..into'] == front + text[p..p']
      decreases |text| - p'
    {
      ghost var from := p';
      done, p', into' := CopyCharacter(json, was, text, p', into');
      if !done {
        assert MinifyFrom(text, p) == Open by {
          UnfinishedString(text, p);
        }
        return;
      }
      Extend(front, text, p, from, p');
    }
    if json[p'] != NUL {
      into' := CopyByte(json, p', into');
      p' := p' + 1;
      Extend(front, text, p, p' - 1, p');
    }
    done := true;
    MinifyString(text, p, p');
    CopiedTwice(front, text[p..p'], MinifyFrom(text, p'));
  }

  lemma UnfinishedString(s: bytes, p: nat)
    requires p < |s| && s[p] == QUOTE && StringEnd(s, p + 1) == None
    ensures MinifyFrom(s, p) == Open
  {}

  lemma MinifyString(s: bytes, p: nat, q: nat)
    requires p < |s| && s[p] == QUOTE && StringEnd(s, p + 1) == Some(q)
    ensures MinifyFrom(s, p) == Copied(s[p..q], MinifyFrom(s, q))
  {}

  /** One round of the copying: a byte, or a backslash and the byte behind it. */
  method CopyCharacter(json: array<byte>, ghost was: bytes, ghost text: bytes, p: nat, into: nat)
    returns (done: bool, p': nat, into': nat)
    requires into <= p < |text| && Untouched(json, was, text, into) && text[p] != QUOTE
    modifies json
    ensures !done ==> StringEnd(text, p) == None
    ensures done ==>
              && p < p' <= |text| && into' <= p' && Untouched(json, was, text, into')
              && StringEnd(text, p') == StringEnd(text, p)
              && json[..into'] == old(json[..into]) + text[p..p']
  {
    p', into' := p, into;
    if json[p'] == BACKSLASH {
      into' := CopyByte(json, p', into');
      p' := p' + 1;
      if json[p'] == NUL {
        return false, p', into';
      }
    }
    into' := CopyByte(json, p', into');
    p' := p' + 1;
    done := true;
    Extend([], text, p, p, p');
  }

  lemma Extend(front: bytes, text: bytes, p: nat, q: nat, r: nat)
    requires p <= q <= r <= |text|
    ensures front + text[p..r] == front + text[p..q] + text[q..r]
    ensures q + 1 == r ==> text[q..r] == [text[q]]
    ensures q + 2 == r ==> text[q..r] == [text[q]] + [text[q + 1]]
  {}

  // ----- an automaton reading a text once from the front

  datatype State = Outside | Slash | LineComment | BlockComment | Star | InString | Escaping

  function Next(state: State, c: byte): State {
    match state
    case Outside => if c == SLASH then Slash else if c == QUOTE then InString else Outside
    case Slash =>
      if c == SLASH then LineComment else if c == STAR then Star else if c == QUOTE then InString else Outside
    case LineComment => if c == NEWLINE then Outside else LineComment
    case BlockComment => if c == STAR then Star else BlockComment
    case Star => if c == SLASH then Outside else if c == STAR then Star else BlockComment
    case InString => if c == QUOTE then Outside else if c == BACKSLASH then Escaping else InString
    case Escaping => InString
  }

  /**
   Where the reading stands; `lone`: the last thing that was neither blank nor comment is a slash
   outside of strings; `glued`: such a slash was followed by another one that begins no comment,
   or by a star.
   */
  datatype Reading = Reading(state: State, lone: bool, glued: bool)

  const START := Reading(Outside, false, false)

  /** Only behind a byte that is not its partner is a slash known to begin no comment. */
  function Read(r: Reading, c: byte): Reading {
    match r.state
    case Outside =>
      Reading(Next(Outside, c), r.lone && (IsBlank(c) || c == SLASH), r.glued || (r.lone && c == STAR))
    case Slash =>
      if c == SLASH || c == STAR then r.(state := Next(Slash, c))
      else Reading(Next(Slash, c), IsBlank(c), r.glued || r.lone)
    case _ => r.(state := Next(r.state, c))
  }

  function After(r: Reading, s: bytes, p: nat): Reading
    requires p <= |s|
    decreases |s| - p
  {
    if p == |s| then r else After(Read(r, s[p]), s, p + 1)
  }

  /** The text had two slashes, or a slash and a star, with nothing but blanks and comments between them. */
  predicate Glues(r: Reading) {
    r.glued || (r.state == Slash && r.lone)
  }

  lemma {:induction false} AfterLineComment(r: Reading, s: bytes, p: nat)
    requires p <= |s| && r.state == LineComment
    ensures var q := LineCommentEnd(s, p);
            After(r, s, p) == if q == |s| then r else After(r.(state := Outside), s, q)
    decreases |s| - p
  {
    if p < |s| && s[p] != NEWLINE {
      AfterLineComment(r, s, p + 1);
    } else if p < |s| {
      assert After(r, s, p) == After(r.(state := Outside), s, p + 1) == After(r.(state := Outside), s, p);
    }
  }

  /** A comment that ends with the text may end in either state; neither is inside a string. */
  lemma {:induction false} AfterBlockComment(r: Reading, s: bytes, p: nat)
    requires p <= |s| && (r.state == BlockComment || (r.state == Star && p > 0 && s[p - 1] == STAR))
    ensures var q := if r.state == Star && p < |s| && s[p] == SLASH then p + 1 else BlockCommentEnd(s, p);
            var after := After(r, s, p);
            if q < |s| then after == After(r.(state := Outside), s, q)
            else after.state in {Outside, BlockComment, Star} && after == r.(state := after.state)
    decreases |s| - p
  {
    if p < |s| && !(r.state == Star && s[p] == SLASH) {
      AfterBlockComment(Read(r, s[p]), s, p + 1);
    }
  }

  lemma {:induction false} AfterString(r: Reading, s: bytes, p: nat)
    requires p <= |s| && r.state == InString
    ensures var q := StringEnd(s, p);
            var after := After(r, s, p);
            if q.None? then after.state == Escaping
            else if q.value < |s| then after == After(r.(state := Outside), s, q.value)
            else after.state in {Outside, InString} && after == r.(state := after.state)
    decreases |s| - p
  {
    if p < |s| && s[p] == BACKSLASH && p + 1 < |s| {
      AfterString(r, s, p + 2);
    } else if p < |s| && s[p] != QUOTE && s[p] != BACKSLASH {
      AfterString(r, s, p + 1);
    }
  }

  /** A slash that begins no comment is behind the reading once the next byte is looked at. */
  lemma AfterSlash(r: Reading, s: bytes, p: nat)
    requires p < |s| && r.state == Slash && s[p] != SLASH && s[p] != STAR
    ensures After(r, s, p) == After(Reading(Outside, true, r.glued || r.lone), s, p)
  {}

  /** The copying runs over the terminator exactly when the text ends behind a backslash that opens an escape. */
  lemma {:induction false} OpenIff(r: Reading, s: bytes, p: nat)
    requires p <= |s| && r.state == Outside
    ensures MinifyFrom(s, p) == Open <==> After(r, s, p).state == Escaping
    decreases |s| - p
  {
    if p < |s| {
      var next := Read(r, s[p]);
      if SlashThen(s, p, SLASH) {
        LineCommentPassed(r, s, p);
        OpenIff(r, s, LineCommentEnd(s, p));
      } else if SlashThen(s, p, STAR) {
        BlockCommentPassed(r, s, p);
        OpenIff(r, s, BlockCommentEnd(s, p));
      } else if s[p] == QUOTE {
        AfterString(next, s, p + 1);
        var q := StringEnd(s, p + 1);
        if q.Some? {
          OpenIff(next.(state := Outside), s, q.value);
        }
      } else if s[p] == SLASH && p + 1 < |s| {
        AfterSlash(next, s, p + 1);
        OpenIff(Reading(Outside, true, next.glued || next.lone), s, p + 1);
      } else if s[p] != SLASH {
        OpenIff(next, s, p + 1);
      }
    }
  }

  /** What is read and what is left of a comment is what stands behind it. */
  lemma LineCommentPassed(r: Reading, s: bytes, p: nat)
    requires p < |s| && r.state == Outside && SlashThen(s, p, SLASH)
    ensures var q := LineCommentEnd(s, p);
            p < q && if q < |s| then After(r, s, p) == After(r, s, q)
                     else After(r, s, p) == r.(state := LineComment)
  {
    AfterLineComment(r.(state := LineComment), s, p + 2);
    assert Read(Read(r, s[p]), s[p + 1]) == r.(state := LineComment);
    assert LineCommentEnd(s, p) == LineCommentEnd(s, p + 1) == LineCommentEnd(s, p + 2);
  }

  lemma BlockCommentPassed(r: Reading, s: bytes, p: nat)
    requires p < |s| && r.state == Outside && SlashThen(s, p, STAR)
    ensures var q := BlockCommentEnd(s, p);
            var after := After(r, s, p);
            p < q && if q < |s| then after == After(r, s, q)
                     else after.state in {Outside, BlockComment, Star} && after == r.(state := after.state)
  {
    AfterBlockComment(r.(state := Star), s, p + 2);
    assert Read(Read(r, s[p]), s[p + 1]) == r.(state := Star);
    assert BlockCommentEnd(s, p) == BlockCommentEnd(s, p + 1);
  }

  /** The shortest such text: a quote and a backslash. */
  lemma OpenExample()
    ensures MinifyFrom([QUOTE, BACKSLASH], 0) == Open
  {
    var s := [QUOTE, BACKSLASH];
    assert StringEnd(s, 1) == None;
  }
}
