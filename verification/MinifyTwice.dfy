/** Minifying a text that has been minified: when a second pass changes nothing. */
module MinifyTwice {
  import opened Bytes
  import opened Minify
  import opened Wrappers

  /** Minifying leaves the text as it is. */
  predicate Stable(t: bytes) {
    MinifyFrom(t, 0) == Minified(t)
  }

  // ----- what stands in front of a text does not matter to what is left of it

  lemma {:induction false} LineCommentMoves(a: bytes, t: bytes, p: nat)
    requires p <= |t|
    ensures LineCommentEnd(a + t, |a| + p) == |a| + LineCommentEnd(t, p)
    decreases |t| - p
  {
    if p < |t| && t[p] != NEWLINE {
      LineCommentMoves(a, t, p + 1);
    }
  }

  lemma {:induction false} BlockCommentMoves(a: bytes, t: bytes, p: nat)
    requires p <= |t|
    ensures BlockCommentEnd(a + t, |a| + p) == |a| + BlockCommentEnd(t, p)
    decreases |t| - p
  {
    if p < |t| && !(t[p] == STAR && p + 1 < |t| && t[p + 1] == SLASH) {
      BlockCommentMoves(a, t, p + 1);
    }
  }

  lemma {:induction false} StringMoves(a: bytes, t: bytes, p: nat)
    requires p <= |t|
    ensures var q := StringEnd(t, p);
            StringEnd(a + t, |a| + p) == if q.None? then None else Some(|a| + q.value)
    decreases |t| - p
  {
    if p < |t| && t[p] == BACKSLASH && p + 1 < |t| {
      StringMoves(a, t, p + 2);
    } else if p < |t| && t[p] != QUOTE && t[p] != BACKSLASH {
      StringMoves(a, t, p + 1);
    }
  }

  /** One token, taken out or copied. */
  lemma MinifyUnfolds(s: bytes, p: nat)
    requires p < |s|
    ensures MinifyFrom(s, p) ==
            if IsBlank(s[p]) then MinifyFrom(s, p + 1)
            else if SlashThen(s, p, SLASH) then MinifyFrom(s, LineCommentEnd(s, p))
            else if SlashThen(s, p, STAR) then MinifyFrom(s, BlockCommentEnd(s, p))
            else if s[p] == QUOTE then StringCopied(s, p, StringEnd(s, p + 1))
            else Copied([s[p]], MinifyFrom(s, p + 1))
  {
    hide LineCommentEnd, BlockCommentEnd, StringEnd, Copied;
  }

  function StringCopied(s: bytes, p: nat, q: Option<nat>): Minified
    requires q.Some? ==> p <= q.value <= |s|
  {
    if q.None? then Open else Copied(s[p..q.value], MinifyFrom(s, q.value))
  }

  lemma ByteMoves(a: bytes, t: bytes, p: nat)
    requires p < |t|
    ensures (a + t)[|a| + p] == t[p]
    ensures forall c :: SlashThen(a + t, |a| + p, c) == SlashThen(t, p, c)
  {
    if p + 1 < |t| {
      assert (a + t)[|a| + p + 1] == t[p + 1];
    }
  }

  lemma {:induction false} MinifyMoves(a: bytes, t: bytes, p: nat)
    requires p <= |t|
    ensures MinifyFrom(a + t, |a| + p) == MinifyFrom(t, p)
    decreases |t| - p
  {
    hide *;
    if p == |t| {
      NothingIsLeft(a + t);
      NothingIsLeft(t);
    } else {
      ByteMoves(a, t, p);
      MinifyUnfolds(a + t, |a| + p);
      MinifyUnfolds(t, p);
      if SlashThen(t, p, SLASH) {
        LineCommentGoesOn(t, p);
        LineCommentMoves(a, t, p);
        MinifyMoves(a, t, LineCommentEnd(t, p));
      } else if SlashThen(t, p, STAR) {
        BlockCommentGoesOn(t, p);
        BlockCommentMoves(a, t, p);
        MinifyMoves(a, t, BlockCommentEnd(t, p));
      } else if t[p] == QUOTE {
        StringMoves(a, t, p + 1);
        var q := StringEnd(t, p + 1);
        if q.Some? {
          MinifyMoves(a, t, q.value);
          CopyMoves(a, t, p, q.value);
        } else {
          CutOff(t, p);
          CutOff(a + t, |a| + p);
        }
      } else {
        MinifyMoves(a, t, p + 1);
      }
    }
  }

  lemma NothingIsLeft(s: bytes)
    ensures MinifyFrom(s, |s|) == Minified([])
  {}

  lemma LineCommentGoesOn(s: bytes, p: nat)
    requires p < |s| && SlashThen(s, p, SLASH)
    ensures p < LineCommentEnd(s, p) && !IsBlank(s[p])
  {}

  lemma BlockCommentGoesOn(s: bytes, p: nat)
    requires p < |s| && SlashThen(s, p, STAR)
    ensures p < BlockCommentEnd(s, p) && !IsBlank(s[p])
  {}

  lemma CopyMoves(a: bytes, t: bytes, p: nat, q: nat)
    requires p < q <= |t| && t[p] == QUOTE
    requires MinifyFrom(a + t, |a| + q) == MinifyFrom(t, q)
    ensures StringCopied(a + t, |a| + p, Some(|a| + q)) == StringCopied(t, p, Some(q)) && !IsBlank(t[p])
  {
    hide MinifyFrom, Copied;
    SliceMoves(a, t, p, q);
  }

  lemma CutOff(s: bytes, p: nat)
    requires p < |s| && s[p] == QUOTE
    ensures StringCopied(s, p, None) == Open && !IsBlank(s[p])
  {}

  lemma SliceMoves(a: bytes, t: bytes, p: nat, q: nat)
    requires p <= q <= |t|
    ensures (a + t)[|a| + p..|a| + q] == t[p..q]
  {}

  // ----- one token in front of a text

  lemma ByteInFront(c: byte, t: bytes)
    requires IsPlain(c) || (c == SLASH && (t == [] || (t[0] != SLASH && t[0] != STAR)))
    ensures Stable([c] + t) <==> Stable(t)
  {
    MinifyMoves([c], t, 0);
    assert MinifyFrom([c] + t, 0) == Copied([c], MinifyFrom(t, 0));
    CopiedIsWhole([c], t, MinifyFrom(t, 0));
  }

  /** Where a comment begins, something is taken out. */
  lemma CommentInFront(t: bytes)
    requires |t| >= 2 && t[0] == SLASH && (t[1] == SLASH || t[1] == STAR)
    ensures !Stable(t)
  {}

  /** The string that ends at q in one text ends where its copy ends in another. */
  lemma {:induction false} StringRepeated(s: bytes, p: nat, q: nat, u: bytes, a: nat)
    requires p <= q <= |s| && StringEnd(s, p) == Some(q)
    requires a + (q - p) <= |u| && u[a..a + (q - p)] == s[p..q]
    requires q < |s| || a + (q - p) == |u|
    ensures StringEnd(u, a) == Some(a + (q - p))
    decreases |s| - p
  {
    if p < |s| {
      assert u[a] == u[a..a + (q - p)][0] == s[p..q][0] == s[p];
      if s[p] == BACKSLASH {
        StringBehind(s, p, q, u, a, 2);
        StringRepeated(s, p + 2, q, u, a + 2);
      } else if s[p] != QUOTE {
        StringBehind(s, p, q, u, a, 1);
        StringRepeated(s, p + 1, q, u, a + 1);
      }
    }
  }

  lemma StringBehind(s: bytes, p: nat, q: nat, u: bytes, a: nat, n: nat)
    requires p + n <= q <= |s| && a + (q - p) <= |u| && u[a..a + (q - p)] == s[p..q]
    ensures u[a + n..a + (q - p)] == s[p + n..q]
  {
    assert u[a + n..a + (q - p)] == u[a..a + (q - p)][n..];
    assert s[p + n..q] == s[p..q][n..];
  }

  lemma StringInFront(s: bytes, p: nat, q: nat, t: bytes)
    requires p < q <= |s| && s[p] == QUOTE && StringEnd(s, p + 1) == Some(q) && (q < |s| || t == [])
    ensures Stable(s[p..q] + t) <==> Stable(t)
  {
    hide MinifyFrom, StringEnd, Copied;
    var x := s[p..q];
    FrontOf(s, p, q, t);
    StringRepeated(s, p + 1, q, x + t, 1);
    MinifyString(x + t, 0, q - p);
    MinifyMoves(x, t, 0);
    CopiedIsWhole(x, t, MinifyFrom(t, 0));
  }

  lemma FrontOf(s: bytes, p: nat, q: nat, t: bytes)
    requires p < q <= |s|
    ensures var u := s[p..q] + t; u[0] == s[p] && u[1..q - p] == s[p + 1..q] && u[0..q - p] == s[p..q]
  {}

  lemma CopiedIsWhole(a: bytes, t: bytes, r: Minified)
    ensures Copied(a, r) == Minified(a + t) <==> r == Minified(t)
  {
    if r.Minified? {
      assert (a + r.out)[|a|..] == r.out && (a + t)[|a|..] == t;
    }
  }

  // ----- the whole text

  /** What is left from here on, behind the slash that is still alone. */
  function Leading(lone: bool, t: bytes): bytes {
    if lone then [SLASH] + t else t
  }

  lemma {:induction false} GluedStays(r: Reading, s: bytes, p: nat)
    requires p <= |s| && r.glued
    ensures Glues(After(r, s, p))
    decreases |s| - p
  {
    if p < |s| {
      GluedStays(Read(r, s[p]), s, p + 1);
    }
  }

  lemma {:induction false} StableFrom(r: Reading, s: bytes, p: nat)
    requires p <= |s| && r.state == Outside && !r.glued && MinifyFrom(s, p).Minified?
    ensures Stable(Leading(r.lone, MinifyFrom(s, p).out)) <==> !Glues(After(r, s, p))
    decreases |s| - p
  {
    if p == |s| {
      ByteInFront(SLASH, []);
    } else if IsBlank(s[p]) {
      StableFrom(r, s, p + 1);
    } else if SlashThen(s, p, SLASH) {
      LineCommentPassed(r, s, p);
      StableBehindComment(r, s, p, LineCommentEnd(s, p));
    } else if SlashThen(s, p, STAR) {
      BlockCommentPassed(r, s, p);
      StableBehindComment(r, s, p, BlockCommentEnd(s, p));
    } else if s[p] == QUOTE {
      StableFromString(r, s, p);
    } else if s[p] == SLASH {
      StableFromSlash(r, s, p);
    } else {
      StableFromByte(r, s, p);
    }
  }

  lemma {:induction false} StableBehindComment(r: Reading, s: bytes, p: nat, q: nat)
    requires p < q <= |s| && r.state == Outside && !r.glued && MinifyFrom(s, p) == MinifyFrom(s, q)
    requires MinifyFrom(s, q).Minified?
    requires if q < |s| then After(r, s, p) == After(r, s, q)
             else After(r, s, p).state != Slash && After(r, s, p) == r.(state := After(r, s, p).state)
    ensures Stable(Leading(r.lone, MinifyFrom(s, p).out)) <==> !Glues(After(r, s, p))
    decreases |s| - p, 0
  {
    StableFrom(r, s, q);
  }

  lemma {:induction false} StableFromString(r: Reading, s: bytes, p: nat)
    requires p < |s| && r.state == Outside && !r.glued && MinifyFrom(s, p).Minified? && s[p] == QUOTE
    ensures Stable(Leading(r.lone, MinifyFrom(s, p).out)) <==> !Glues(After(r, s, p))
    decreases |s| - p, 0
  {
    var q := StringEnd(s, p + 1).value;
    var t := MinifyFrom(s, q).out;
    AfterString(Read(r, s[p]), s, p + 1);
    StableFrom(START, s, q);
    StringInFront(s, p, q, t);
    ByteInFront(SLASH, s[p..q] + t);
  }

  lemma {:induction false} StableFromSlash(r: Reading, s: bytes, p: nat)
    requires p < |s| && r.state == Outside && !r.glued && MinifyFrom(s, p).Minified?
    requires s[p] == SLASH && !SlashThen(s, p, SLASH) && !SlashThen(s, p, STAR)
    ensures Stable(Leading(r.lone, MinifyFrom(s, p).out)) <==> !Glues(After(r, s, p))
    decreases |s| - p, 0
  {
    var next := Read(r, SLASH);
    var t := MinifyFrom(s, p + 1).out;
    if r.lone {
      CommentInFront([SLASH] + ([SLASH] + t));
    }
    if p + 1 == |s| {
      ByteInFront(SLASH, []);
    } else {
      AfterSlash(next, s, p + 1);
      if r.lone {
        GluedStays(Reading(Outside, true, true), s, p + 1);
      } else {
        StableFrom(Reading(Outside, true, false), s, p + 1);
      }
    }
  }

  lemma {:induction false} StableFromByte(r: Reading, s: bytes, p: nat)
    requires p < |s| && r.state == Outside && !r.glued && MinifyFrom(s, p).Minified? && IsPlain(s[p])
    ensures Stable(Leading(r.lone, MinifyFrom(s, p).out)) <==> !Glues(After(r, s, p))
    decreases |s| - p, 0
  {
    var c := s[p];
    var t := MinifyFrom(s, p + 1).out;
    if r.lone && c == STAR {
      CommentInFront([SLASH] + ([STAR] + t));
      GluedStays(Read(r, c), s, p + 1);
    } else {
      StableFrom(START, s, p + 1);
      ByteInFront(c, t);
      if r.lone {
        ByteInFront(SLASH, [c] + t);
      }
    }
  }

  /** Minifying twice comes to the same as minifying once exactly when nothing was glued to a slash. */
  lemma IdempotentIff(s: bytes)
    requires MinifyFrom(s, 0).Minified?
    ensures var out := MinifyFrom(s, 0).out;
            MinifyFrom(out, 0) == Minified(out) <==> !Glues(After(START, s, 0))
  {
    StableFrom(START, s, 0);
  }

  /** The shortest such text: a blank between two slashes. */
  lemma GluedExample()
    ensures MinifyFrom([SLASH, SPACE, SLASH], 0) == Minified([SLASH, SLASH])
    ensures MinifyFrom([SLASH, SLASH], 0) == Minified([])
    ensures Glues(After(START, [SLASH, SPACE, SLASH], 0))
  {
    var s := [SLASH, SPACE, SLASH];
    assert MinifyFrom(s, 3) == Minified([]);
    assert MinifyFrom(s, 2) == Minified([SLASH]);
    assert MinifyFrom(s, 1) == Minified([SLASH]);
    var u := [SLASH, SLASH];
    assert LineCommentEnd(u, 2) == 2;
    assert LineCommentEnd(u, 1) == 2;
    IdempotentIff(s);
  }
}
