/** Which bytes of a text minifying takes out, byte by byte and by their values. */
module MinifyKeeps {
  import opened Bytes
  import opened Minify
  import opened MinifyTwice
  import opened Wrappers
  import G = Grammar

  /** A slash that begins a comment. */
  predicate Begins(s: bytes, i: nat)
    requires i < |s|
  {
    s[i] == 47 && i + 1 < |s| && (s[i + 1] == 47 || s[i + 1] == 42)
  }

  /** With the reading in the given state the i-th byte is white space or belongs to a comment. */
  predicate Dropped(state: State, s: bytes, i: nat)
    requires i < |s|
  {
    match state
    case Outside => G.White(s[i]) || Begins(s, i)
    case Slash => G.White(s[i]) || s[i] == 47 || s[i] == 42
    case LineComment => true
    case BlockComment => true
    case Star => true
    case InString => false
    case Escaping => false
  }

  /** All other bytes, in order. */
  function Kept(state: State, s: bytes, p: nat): bytes
    requires p <= |s|
    decreases |s| - p
  {
    if p == |s| then []
    else (if Dropped(state, s, p) then [] else [s[p]]) + Kept(Next(state, s[p]), s, p + 1)
  }

  lemma {:induction false} LineCommentIsDropped(s: bytes, p: nat)
    requires p <= |s|
    ensures Kept(LineComment, s, p) == Kept(Outside, s, LineCommentEnd(s, p))
    decreases |s| - p
  {
    if p < |s| {
      LineCommentIsDropped(s, p + 1);
    }
  }

  lemma {:induction false} BlockCommentIsDropped(s: bytes, p: nat, star: bool)
    requires p <= |s| && (star ==> p > 0 && s[p - 1] == STAR)
    ensures var q := if star && p < |s| && s[p] == SLASH then p + 1 else BlockCommentEnd(s, p);
            Kept(if star then Star else BlockComment, s, p) == Kept(Outside, s, q)
    decreases |s| - p
  {
    if p < |s| && !(star && s[p] == SLASH) {
      BlockCommentIsDropped(s, p + 1, s[p] == STAR);
    }
  }

  lemma {:induction false} StringIsKept(s: bytes, p: nat, q: nat)
    requires p <= q <= |s| && StringEnd(s, p) == Some(q)
    ensures Kept(InString, s, p) == s[p..q] + Kept(Outside, s, q)
    decreases |s| - p
  {
    if p < |s| {
      if s[p] == BACKSLASH {
        StringIsKept(s, p + 2, q);
        OneKept(InString, s, p);
        OneKept(Escaping, s, p + 1);
        TwoInFront(s, p, q, Kept(Outside, s, q));
      } else {
        OneKept(InString, s, p);
        if s[p] != QUOTE {
          StringIsKept(s, p + 1, q);
        }
        OneInFront(s, p, q, Kept(Outside, s, q));
      }
    }
  }

  lemma OneKept(state: State, s: bytes, p: nat)
    requires p < |s| && !Dropped(state, s, p)
    ensures Kept(state, s, p) == [s[p]] + Kept(Next(state, s[p]), s, p + 1)
  {}

  lemma OneInFront(s: bytes, p: nat, q: nat, rest: bytes)
    requires p < q <= |s|
    ensures [s[p]] + (s[p + 1..q] + rest) == s[p..q] + rest
    ensures p + 1 == q ==> [s[p]] + rest == s[p..q] + rest
  {}

  lemma TwoInFront(s: bytes, p: nat, q: nat, rest: bytes)
    requires p + 2 <= q <= |s|
    ensures [s[p]] + ([s[p + 1]] + (s[p + 2..q] + rest)) == s[p..q] + rest
  {
    OneInFront(s, p + 1, q, rest);
    OneInFront(s, p, q, rest);
  }

  lemma LineCommentBegins(s: bytes, p: nat)
    requires p < |s| && SlashThen(s, p, SLASH)
    ensures p < LineCommentEnd(s, p) && MinifyFrom(s, p) == MinifyFrom(s, LineCommentEnd(s, p))
    ensures Kept(Outside, s, p) == Kept(Outside, s, LineCommentEnd(s, p))
  {
    assert Kept(Outside, s, p) == Kept(LineComment, s, p + 2);
    LineCommentIsDropped(s, p + 2);
    assert LineCommentEnd(s, p) == LineCommentEnd(s, p + 1) == LineCommentEnd(s, p + 2);
  }

  lemma BlockCommentBegins(s: bytes, p: nat)
    requires p < |s| && SlashThen(s, p, STAR)
    ensures p < BlockCommentEnd(s, p) && MinifyFrom(s, p) == MinifyFrom(s, BlockCommentEnd(s, p))
    ensures Kept(Outside, s, p) == Kept(Outside, s, BlockCommentEnd(s, p))
  {
    assert Kept(Outside, s, p) == Kept(Star, s, p + 2);
    BlockCommentIsDropped(s, p + 2, true);
    assert BlockCommentEnd(s, p) == BlockCommentEnd(s, p + 1);
  }

  lemma StringBegins(s: bytes, p: nat, q: nat)
    requires p < |s| && s[p] == QUOTE && StringEnd(s, p + 1) == Some(q)
    ensures Kept(Outside, s, p) == s[p..q] + Kept(Outside, s, q)
  {
    hide MinifyFrom;
    StringIsKept(s, p + 1, q);
    OneKept(Outside, s, p);
    OneInFront(s, p, q, Kept(Outside, s, q));
  }

  /** A slash that begins no comment is kept, and what follows is read as if it stood outside. */
  lemma SlashIsKept(s: bytes, p: nat)
    requires p < |s| && s[p] == SLASH && !SlashThen(s, p, SLASH) && !SlashThen(s, p, STAR)
    ensures Kept(Outside, s, p) == [s[p]] + Kept(Outside, s, p + 1)
  {}

  /** What is left is what is neither white space nor comment outside of strings: nothing less and nothing more. */
  lemma {:induction false} MinifyIsKept(s: bytes, p: nat)
    requires p <= |s| && MinifyFrom(s, p).Minified?
    ensures MinifyFrom(s, p).out == Kept(Outside, s, p)
    decreases |s| - p
  {
    hide LineCommentEnd, BlockCommentEnd, StringEnd, Kept;
    if p == |s| {
      NothingKept(s);
    } else if SlashThen(s, p, SLASH) {
      LineCommentBegins(s, p);
      MinifyIsKept(s, LineCommentEnd(s, p));
    } else if SlashThen(s, p, STAR) {
      BlockCommentBegins(s, p);
      MinifyIsKept(s, BlockCommentEnd(s, p));
    } else if s[p] == QUOTE {
      var q := StringEnd(s, p + 1).value;
      StringBegins(s, p, q);
      MinifyIsKept(s, q);
    } else {
      MinifyIsKept(s, p + 1);
      ByteIsKept(s, p);
    }
  }

  lemma NothingKept(s: bytes)
    ensures Kept(Outside, s, |s|) == []
  {}

  lemma ByteIsKept(s: bytes, p: nat)
    requires p < |s| && s[p] != QUOTE && !SlashThen(s, p, SLASH) && !SlashThen(s, p, STAR)
    ensures Kept(Outside, s, p) == (if IsBlank(s[p]) then [] else [s[p]]) + Kept(Outside, s, p + 1)
  {
    if s[p] == SLASH {
      SlashIsKept(s, p);
    }
  }

  // ----- what the result looks like

  /** The state in which a reading that begins outside comes to the i-th byte. */
  function StateAt(s: bytes, i: nat): State
    requires i <= |s|
  {
    if i == 0 then Outside else Next(StateAt(s, i - 1), s[i - 1])
  }

  lemma {:induction false} KeptIsShorter(state: State, s: bytes, p: nat)
    requires p <= |s|
    ensures |Kept(state, s, p)| <= |s| - p
    decreases |s| - p
  {
    if p < |s| {
      KeptIsShorter(Next(state, s[p]), s, p + 1);
    }
  }

  lemma {:induction false} NothingDropped(s: bytes, p: nat, i: nat)
    requires p <= i < |s| && |Kept(StateAt(s, p), s, p)| == |s| - p
    ensures !Dropped(StateAt(s, i), s, i)
    decreases i - p
  {
    KeptIsShorter(Next(StateAt(s, p), s[p]), s, p + 1);
    if p < i {
      NothingDropped(s, p + 1, i);
    }
  }

  /**
   Unless something was glued together, the result has no white space and no comment outside of
   strings, as a reading of the result itself tells.
   */
  lemma NoWhiteLeft(s: bytes, i: nat)
    requires MinifyFrom(s, 0).Minified? && !Glues(After(START, s, 0))
    requires i < |MinifyFrom(s, 0).out|
    ensures var out := MinifyFrom(s, 0).out;
            && !Dropped(StateAt(out, i), out, i)
            && (StateAt(out, i) != InString && StateAt(out, i) != Escaping ==> !G.White(out[i]))
  {
    var out := MinifyFrom(s, 0).out;
    IdempotentIff(s);
    MinifyIsKept(out, 0);
    NothingDropped(out, 0, i);
  }

  /** A reading of t that begins in the given state meets no white space outside of strings. */
  predicate Clean(state: State, t: bytes)
    decreases |t|
  {
    t != [] ==> (state == InString || state == Escaping || !G.White(t[0])) && Clean(Next(state, t[0]), t[1..])
  }

  /**
   Reading the original once, in `state`, and in `seen` what a reading of the result will make of
   the bytes that are kept: white space is kept that the result will not show to be in a string.
   */
  predicate Bared(state: State, seen: State, s: bytes, p: nat)
    requires p <= |s|
    decreases |s| - p
  {
    && p < |s|
    && if Dropped(state, s, p) then Bared(Next(state, s[p]), seen, s, p + 1)
       else (seen != InString && seen != Escaping && G.White(s[p])) ||
            Bared(Next(state, s[p]), Next(seen, s[p]), s, p + 1)
  }

  lemma {:induction false} KeptIsClean(state: State, seen: State, s: bytes, p: nat)
    requires p <= |s|
    ensures Clean(seen, Kept(state, s, p)) <==> !Bared(state, seen, s, p)
    decreases |s| - p
  {
    if p < |s| {
      var rest := Kept(Next(state, s[p]), s, p + 1);
      if Dropped(state, s, p) {
        KeptIsClean(Next(state, s[p]), seen, s, p + 1);
        assert [] + rest == rest;
      } else {
        KeptIsClean(Next(state, s[p]), Next(seen, s[p]), s, p + 1);
        assert ([s[p]] + rest)[1..] == rest;
      }
    }
  }

  lemma {:induction false} CleanMeans(s: bytes, p: nat)
    requires p <= |s|
    ensures Clean(StateAt(s, p), s[p..]) <==>
            forall i :: p <= i < |s| ==> StateAt(s, i) in {InString, Escaping} || !G.White(s[i])
    decreases |s| - p
  {
    if p < |s| {
      CleanMeans(s, p + 1);
      assert s[p..][0] == s[p] && s[p..][1..] == s[p + 1..];
      assert StateAt(s, p + 1) == Next(StateAt(s, p), s[p]);
    }
  }

  /** Exactly when the result has no white space outside of what are strings in the result itself. */
  lemma NoWhiteLeftIff(s: bytes)
    requires MinifyFrom(s, 0).Minified?
    ensures var out := MinifyFrom(s, 0).out;
            (forall i :: 0 <= i < |out| ==> StateAt(out, i) in {InString, Escaping} || !G.White(out[i]))
            <==> !Bared(Outside, Outside, s, 0)
  {
    var out := MinifyFrom(s, 0).out;
    MinifyIsKept(s, 0);
    KeptIsClean(Outside, Outside, s, 0);
    CleanMeans(out, 0);
    assert out[0..] == out;
  }

  /** Glued to a comment, the result may have some: a slash, a blank, a star, and a string of one blank. */
  lemma WhiteLeftExample()
    ensures var s := [SLASH, SPACE, STAR, QUOTE, SPACE, QUOTE];
            var out := [SLASH, STAR, QUOTE, SPACE, QUOTE];
            MinifyFrom(s, 0) == Minified(out) && StateAt(out, 3) == BlockComment && G.White(out[3])
  {
    var s := [SLASH, SPACE, STAR, QUOTE, SPACE, QUOTE];
    var out := [SLASH, STAR, QUOTE, SPACE, QUOTE];
    assert StringEnd(s, 5) == Some(6);
    assert StringEnd(s, 4) == Some(6);
    assert MinifyFrom(s, 6) == Minified([]);
    assert s[3..6] == [QUOTE, SPACE, QUOTE];
    assert MinifyFrom(s, 3) == Minified([QUOTE, SPACE, QUOTE]);
    assert MinifyFrom(s, 2) == Minified([STAR, QUOTE, SPACE, QUOTE]);
    assert MinifyFrom(s, 1) == Minified([STAR, QUOTE, SPACE, QUOTE]);
    assert StateAt(out, 1) == Slash;
    assert StateAt(out, 2) == Star;
    assert StateAt(out, 3) == BlockComment;
  }
}
