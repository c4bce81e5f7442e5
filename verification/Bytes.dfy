/** Byte strings, the characters the JSON engine looks at, and positions inside a buffer. */
module Bytes {
  type byte = x: int | 0 <= x < 256
  type bytes = seq<byte>

  const NUL: byte := 0
  const BACKSPACE: byte := 8
  const TAB: byte := 9
  const NEWLINE: byte := 10
  const FORMFEED: byte := 12
  const RETURN: byte := 13
  const SPACE: byte := 32
  const QUOTE: byte := 34
  const STAR: byte := 42
  const PLUS: byte := 43
  const COMMA: byte := 44
  const MINUS: byte := 45
  const DOT: byte := 46
  const SLASH: byte := 47
  const ZERO: byte := 48
  const NINE: byte := 57
  const COLON: byte := 58
  const LBRACKET: byte := 91
  const BACKSLASH: byte := 92
  const RBRACKET: byte := 93
  const LOWER_A: byte := 97
  const LOWER_B: byte := 98
  const LOWER_E: byte := 101
  const LOWER_F: byte := 102
  const LOWER_L: byte := 108
  const LOWER_N: byte := 110
  const LOWER_R: byte := 114
  const LOWER_S: byte := 115
  const LOWER_T: byte := 116
  const LOWER_U: byte := 117
  const UPPER_A: byte := 65
  const UPPER_E: byte := 69
  const UPPER_F: byte := 70
  const LBRACE: byte := 123
  const RBRACE: byte := 125

  const NULL_TEXT: bytes := [LOWER_N, LOWER_U, LOWER_L, LOWER_L]
  const TRUE_TEXT: bytes := [LOWER_T, LOWER_R, LOWER_U, LOWER_E]
  const FALSE_TEXT: bytes := [LOWER_F, LOWER_A, LOWER_L, LOWER_S, LOWER_E]

  const INT_MAX: int := 0x7fff_ffff
  const INT_MIN: int := -0x8000_0000

  predicate IsDigit(c: byte) {
    ZERO <= c <= NINE
  }

  /** `t` stands in `s` at position `p`. */
  predicate At(s: bytes, p: nat, t: bytes)
    decreases |t|
  {
    if t == [] then p <= |s| else p < |s| && s[p] == t[0] && At(s, p + 1, t[1..])
  }

  /** The three literals, as strncmp finds them. */
  predicate NullAt(s: bytes, p: nat) {
    p + 4 <= |s| && s[p] == LOWER_N && s[p + 1] == LOWER_U && s[p + 2] == LOWER_L && s[p + 3] == LOWER_L
  }

  predicate TrueAt(s: bytes, p: nat) {
    p + 4 <= |s| && s[p] == LOWER_T && s[p + 1] == LOWER_R && s[p + 2] == LOWER_U && s[p + 3] == LOWER_E
  }

  predicate FalseAt(s: bytes, p: nat) {
    && p + 5 <= |s| && s[p] == LOWER_F && s[p + 1] == LOWER_A && s[p + 2] == LOWER_L
    && s[p + 3] == LOWER_S && s[p + 4] == LOWER_E
  }

  /** A C string: no byte of it is the terminator. */
  predicate NulFree(s: bytes) {
    NUL !in s
  }

  /** What strlen and strcmp see of a terminated buffer. */
  function UpToNul(s: bytes): (r: bytes)
    ensures NulFree(r)
    ensures r <= s
    ensures |r| < |s| ==> s[|r|] == NUL
  {
    if s == [] || s[0] == NUL then [] else [s[0]] + UpToNul(s[1..])
  }

  lemma {:induction false} UpToNulOfCString(s: bytes, rest: bytes)
    requires NulFree(s)
    ensures UpToNul(s) == s
    ensures UpToNul(s + [NUL] + rest) == s
  {
    if s != [] {
      UpToNulOfCString(s[1..], rest);
      assert (s + [NUL] + rest)[1..] == s[1..] + [NUL] + rest;
    }
  }

  lemma TerminatedText(s: bytes, t: bytes)
    requires NulFree(t) && |t| < |s| && s[..|t|] == t && s[|t|] == NUL
    ensures UpToNul(s) == t
  {
    assert s == t + [NUL] + s[|t| + 1..];
    UpToNulOfCString(t, s[|t| + 1..]);
  }

  lemma LiteralsStand(s: bytes, p: nat)
    ensures At(s, p, NULL_TEXT) <==> NullAt(s, p)
    ensures At(s, p, TRUE_TEXT) <==> TrueAt(s, p)
    ensures At(s, p, FALSE_TEXT) <==> FalseAt(s, p)
  {
    AtIsSlice(s, p, NULL_TEXT);
    AtIsSlice(s, p, TRUE_TEXT);
    AtIsSlice(s, p, FALSE_TEXT);
  }

  lemma {:induction false} AtSplit(s: bytes, p: nat, a: bytes, b: bytes)
    ensures At(s, p, a + b) <==> At(s, p, a) && At(s, p + |a|, b)
    decreases |a|
  {
    if a == [] {
      assert a + b == b;
      AtFits(s, p, b);
    } else {
      assert (a + b)[0] == a[0] && (a + b)[1..] == a[1..] + b;
      AtSplit(s, p + 1, a[1..], b);
    }
  }

  lemma {:induction false} AtFits(s: bytes, p: nat, t: bytes)
    ensures At(s, p, t) ==> p + |t| <= |s|
    decreases |t|
  {
    if t != [] {
      AtFits(s, p + 1, t[1..]);
    }
  }

  lemma {:induction false} AtIsSlice(s: bytes, p: nat, t: bytes)
    ensures At(s, p, t) <==> p + |t| <= |s| && s[p..p + |t|] == t
    decreases |t|
  {
    if t != [] {
      AtIsSlice(s, p + 1, t[1..]);
      if p + |t| <= |s| {
        assert s[p..p + |t|] == [s[p]] + s[p + 1..p + |t|];
        assert t == [t[0]] + t[1..];
      }
    }
  }

  lemma AtSplit3(s: bytes, p: nat, a: bytes, b: bytes, c: bytes)
    ensures At(s, p, a + b + c) <==> At(s, p, a) && At(s, p + |a|, b) && At(s, p + |a| + |b|, c)
  {
    AtSplit(s, p, a + b, c);
    AtSplit(s, p, a, b);
  }

  lemma {:induction false} AtIndex(s: bytes, p: nat, t: bytes, i: nat)
    requires At(s, p, t) && i < |t|
    ensures p + i < |s| && s[p + i] == t[i]
    decreases |t|
  {
    if i > 0 {
      AtIndex(s, p + 1, t[1..], i - 1);
    }
  }

  /** A text put between two others stands where the first one ends. */
  lemma AtMiddle(a: bytes, t: bytes, b: bytes)
    ensures At(a + t + b, |a|, t)
  {
    AtIsSlice(a + t + b, |a|, t);
  }

  lemma ConcatAssociates(a: bytes, b: bytes, c: bytes)
    ensures a + (b + c) == a + b + c
  {}

  lemma ConcatThree(z: bytes, a: bytes, b: bytes, c: bytes)
    ensures z + a + b + c == z + (a + b + c)
  {}

  /** A buffer that differs from what it was only in the place of `t`, which it now holds. */
  lemma Overwritten(before: bytes, after: bytes, o: nat, t: bytes)
    requires |before| == |after| && o + |t| <= |before|
    requires forall j :: 0 <= j < |before| && !(o <= j < o + |t|) ==> after[j] == before[j]
    requires forall j :: o <= j < o + |t| ==> after[j] == t[j - o]
    ensures after == before[..o] + t + before[o + |t|..]
  {}
}
