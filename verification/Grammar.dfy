/** JSON texts, as RFC 8259 defines them: a grammar over bytes, written by their values. */
module Grammar {
  import opened Bytes

  // ----- section 2: white space and the literal names

  predicate White(c: byte) {
    c == 32 || c == 9 || c == 10 || c == 13
  }

  predicate Ws(t: bytes) {
    forall i :: 0 <= i < |t| ==> White(t[i])
  }

  predicate Literal(t: bytes) {
    t == [110, 117, 108, 108] || t == [116, 114, 117, 101] || t == [102, 97, 108, 115, 101]
  }

  // ----- section 6: numbers

  predicate Digit(c: byte) {
    48 <= c <= 57
  }

  predicate DigitsFrom(t: bytes, i: nat) {
    i < |t| && forall j :: i <= j < |t| ==> Digit(t[j])
  }

  /** A zero, or digits of which the first is none. */
  predicate Int(t: bytes) {
    t == [48] || (DigitsFrom(t, 0) && t[0] != 48)
  }

  predicate Frac(t: bytes) {
    t == [] || (t[0] == 46 && DigitsFrom(t, 1))
  }

  predicate Exp(t: bytes) {
    t == [] ||
    ((t[0] == 101 || t[0] == 69) && |t| > 1 && DigitsFrom(t, if t[1] == 43 || t[1] == 45 then 2 else 1))
  }

  /** An int with an optional minus, a fraction and an exponent, which end at i and j. */
  predicate NumberParts(t: bytes, i: nat, j: nat)
    requires t != []
  {
    var minus := if t[0] == 45 then 1 else 0;
    minus <= i <= j <= |t| && Int(t[minus..i]) && Frac(t[i..j]) && Exp(t[j..])
  }

  ghost predicate Number(t: bytes) {
    t != [] && exists i: nat, j: nat :: NumberParts(t, i, j)
  }

  // ----- section 7: strings

  predicate Hex(c: byte) {
    48 <= c <= 57 || 65 <= c <= 70 || 97 <= c <= 102
  }

  predicate Chars(t: bytes)
    decreases |t|
  {
    || t == []
    || (t[0] >= 32 && t[0] != 34 && t[0] != 92 && Chars(t[1..]))
    || (t[0] == 92 && |t| >= 2 && t[1] in {34, 92, 47, 98, 102, 110, 114, 116} && Chars(t[2..]))
    || (t[0] == 92 && |t| >= 6 && t[1] == 117 && Hex(t[2]) && Hex(t[3]) && Hex(t[4]) && Hex(t[5]) && Chars(t[6..]))
  }

  predicate String(t: bytes) {
    |t| >= 2 && t[0] == 34 && t[|t| - 1] == 34 && Chars(t[1..|t| - 1])
  }

  // ----- sections 3, 4 and 5: values, objects and arrays

  ghost predicate Value(t: bytes)
    decreases |t|, 1
  {
    Literal(t) || Number(t) || String(t) || Array(t) || Object(t)
  }

  ghost predicate Array(t: bytes)
    decreases |t|, 0
  {
    && |t| >= 2 && t[0] == 91 && t[|t| - 1] == 93
    && (Ws(t[1..|t| - 1]) || Elements(t[1..|t| - 1]))
  }

  ghost predicate Object(t: bytes)
    decreases |t|, 0
  {
    && |t| >= 2 && t[0] == 123 && t[|t| - 1] == 125
    && (Ws(t[1..|t| - 1]) || Members(t[1..|t| - 1]))
  }

  /** One value with white space around it, or the same, a comma and more. */
  ghost predicate Elements(t: bytes)
    decreases |t|, 3
  {
    Element(t) || exists i :: 0 <= i < |t| && t[i] == 44 && Element(t[..i]) && Elements(t[i + 1..])
  }

  ghost predicate Element(t: bytes)
    decreases |t|, 2
  {
    exists i, j :: 0 <= i <= j <= |t| && Ws(t[..i]) && Value(t[i..j]) && Ws(t[j..])
  }

  ghost predicate Members(t: bytes)
    decreases |t|, 4
  {
    Member(t) || exists i :: 0 <= i < |t| && t[i] == 44 && Member(t[..i]) && Members(t[i + 1..])
  }

  /** A string with white space around it, a colon, and a value with white space around it. */
  ghost predicate Member(t: bytes)
    decreases |t|, 3
  {
    exists k :: 0 <= k < |t| && t[k] == 58 && Key(t[..k]) && Element(t[k + 1..])
  }

  ghost predicate Key(t: bytes) {
    exists i, j :: 0 <= i <= j <= |t| && Ws(t[..i]) && String(t[i..j]) && Ws(t[j..])
  }

  /** A JSON text: one value with white space around it. */
  ghost predicate JsonText(t: bytes) {
    Element(t)
  }
}
