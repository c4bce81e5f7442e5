/**
 Strings as section 7 of RFC 8259 lets them be written, piece by piece, and what parse_string makes
 of them.
 */
module WrittenStrings {
  import opened Bytes
  import opened Escapes
  import opened StringCodec
  import opened ParseSpec

  /** A byte as it is, a backslash and a letter, or an escape of a code point by its digits. */
  datatype Piece = Raw(c: byte) | Named(letter: byte) | Coded(cp: nat, text: bytes)

  /** What the eight letters stand for. */
  const NAMES: map<byte, byte> := map[
    98 := 8,
    102 := 12,
    110 := 10,
    114 := 13,
    116 := 9,
    34 := 34,
    92 := 92,
    47 := 47]

  /** The terminator can be written in no way, a quote and a backslash only as escapes. */
  predicate Proper(x: Piece) {
    match x
    case Raw(c) => c != 0 && c != 34 && c != 92
    case Named(letter) => letter in NAMES
    case Coded(cp, text) =>
      IsScalar(cp) && cp != 0 && |text| == (if cp < 0x1_0000 then 6 else 12) && EscapeOf(text, 0, cp)
  }

  predicate AllProper(xs: seq<Piece>) {
    forall i :: 0 <= i < |xs| ==> Proper(xs[i])
  }

  function Written(x: Piece): bytes {
    match x
    case Raw(c) => [c]
    case Named(letter) => [92, letter]
    case Coded(_, text) => text
  }

  function Meant(x: Piece): bytes
    requires Proper(x)
  {
    match x
    case Raw(c) => [c]
    case Named(letter) => [NAMES[letter]]
    case Coded(cp, _) => Utf8(cp)
  }

  function AllWritten(xs: seq<Piece>): bytes {
    if xs == [] then [] else Written(xs[0]) + AllWritten(xs[1..])
  }

  function AllMeant(xs: seq<Piece>): bytes
    requires AllProper(xs)
  {
    if xs == [] then [] else Meant(xs[0]) + AllMeant(xs[1..])
  }

  // ----- one piece

  /** The digits of an escape are the same wherever it stands. */
  lemma EscapeStands(s: bytes, p: nat, t: bytes, i: nat, v: nat)
    requires At(s, p, t) && EscapeAt(t, i, v)
    ensures EscapeAt(s, p + i, v)
  {
    AtFits(s, p, t);
    AtIndex(s, p, t, i);
    AtIndex(s, p, t, i + 1);
    AtIndex(s, p, t, i + 2);
    AtIndex(s, p, t, i + 3);
    AtIndex(s, p, t, i + 4);
    AtIndex(s, p, t, i + 5);
    assert IsHex(t[i + 2]) && IsHex(t[i + 3]) && IsHex(t[i + 4]) && IsHex(t[i + 5]);
  }

  lemma CodedStands(s: bytes, p: nat, x: Piece)
    requires Proper(x) && x.Coded? && At(s, p, x.text)
    ensures p + |x.text| <= |s| && EscapeOf(s, p, x.cp) && s[p] == BACKSLASH && s[p + 1] == LOWER_U
  {
    hide EscapeAt;
    AtFits(s, p, x.text);
    if x.cp < 0x1_0000 {
      EscapeStands(s, p, x.text, 0, x.cp);
      EscapeHead(s, p, x.cp);
    } else {
      var high, low := 0xD800 + (x.cp - 0x1_0000) / 1024, 0xDC00 + (x.cp - 0x1_0000) % 1024;
      EscapeStands(s, p, x.text, 0, high);
      EscapeStands(s, p, x.text, 6, low);
      EscapeHead(s, p, high);
    }
  }

  lemma EscapeHead(s: bytes, p: nat, v: nat)
    requires EscapeAt(s, p, v)
    ensures p + 6 <= |s| && s[p] == BACKSLASH && s[p + 1] == LOWER_U
    ensures IsHex(s[p + 2]) && IsHex(s[p + 3]) && IsHex(s[p + 4]) && IsHex(s[p + 5])
  {}

  /** The decoding loop takes a piece in one round. */
  lemma PieceStep(s: bytes, p: nat, end: nat, x: Piece)
    requires Proper(x) && At(s, p, Written(x)) && p + |Written(x)| <= end < |s|
    ensures StepAt(s, p, end) == StringCodec.Step(|Written(x)|, Meant(x))
  {
    AtIndex(s, p, Written(x), 0);
    match x
    case Raw(_) =>
    case Named(letter) =>
      AtIndex(s, p, [92, letter], 1);
    case Coded(cp, text) =>
      CodedStands(s, p, x);
      ScalarEscapeAccepted(s, p, end, cp);
  }

  /** The scan runs over it. */
  lemma PieceScan(s: bytes, p: nat, x: Piece)
    requires Proper(x) && At(s, p, Written(x))
    ensures var q := p + |Written(x)|;
            && q <= |s| && (ScanFrom(s, p).Closed? <==> ScanFrom(s, q).Closed?)
            && (ScanFrom(s, p).Closed? ==> ScanFrom(s, p).end == ScanFrom(s, q).end)
  {
    AtFits(s, p, Written(x));
    AtIndex(s, p, Written(x), 0);
    match x
    case Raw(_) =>
    case Named(letter) =>
    case Coded(cp, text) =>
      CodedStands(s, p, x);
      if cp < 0x1_0000 {
        EscapeScan(s, p, cp);
      } else {
        EscapeScan(s, p, 0xD800 + (cp - 0x1_0000) / 1024);
        EscapeScan(s, p + 6, 0xDC00 + (cp - 0x1_0000) % 1024);
      }
  }

  lemma EscapeScan(s: bytes, p: nat, v: nat)
    requires EscapeAt(s, p, v)
    ensures ScanFrom(s, p).Closed? <==> ScanFrom(s, p + 6).Closed?
    ensures ScanFrom(s, p).Closed? ==> ScanFrom(s, p).end == ScanFrom(s, p + 6).end
  {
    EscapeHead(s, p, v);
    assert ScanFrom(s, p + 2) == ScanFrom(s, p + 3) == ScanFrom(s, p + 4);
    assert ScanFrom(s, p + 4) == ScanFrom(s, p + 5) == ScanFrom(s, p + 6);
  }

  // ----- the whole string

  lemma PiecesSplit(s: bytes, p: nat, xs: seq<Piece>) returns (q: nat)
    requires xs != [] && At(s, p, AllWritten(xs))
    ensures q == p + |Written(xs[0])| && At(s, p, Written(xs[0])) && At(s, q, AllWritten(xs[1..]))
    ensures q + |AllWritten(xs[1..])| == p + |AllWritten(xs)|
  {
    AtSplit(s, p, Written(xs[0]), AllWritten(xs[1..]));
    q := p + |Written(xs[0])|;
  }

  lemma {:induction false} PiecesScan(s: bytes, p: nat, xs: seq<Piece>, end: nat)
    requires AllProper(xs) && At(s, p, AllWritten(xs)) && end == p + |AllWritten(xs)| < |s| && s[end] == QUOTE
    ensures ScanFrom(s, p).Closed? && ScanFrom(s, p).end == end
    decreases |xs|
  {
    if xs != [] {
      var q := PiecesSplit(s, p, xs);
      PiecesScan(s, q, xs[1..], end);
      PieceScan(s, p, xs[0]);
    }
  }

  lemma {:induction false} PiecesDecode(s: bytes, p: nat, xs: seq<Piece>, end: nat)
    requires AllProper(xs) && At(s, p, AllWritten(xs)) && end == p + |AllWritten(xs)| < |s|
    ensures Decode(s, p, end) == Decoded(AllMeant(xs))
    decreases |xs|
  {
    hide StepAt, Proper, Written, Meant, At;
    if xs != [] {
      var q := PiecesSplit(s, p, xs);
      PieceStep(s, p, end, xs[0]);
      PiecesDecode(s, q, xs[1..], end);
    }
  }

  lemma {:induction false} MeantIsNulFree(xs: seq<Piece>)
    requires AllProper(xs)
    ensures NulFree(AllMeant(xs))
  {
    if xs != [] {
      MeantIsNulFree(xs[1..]);
      if xs[0].Coded? {
        Utf8HasNul(xs[0].cp);
      }
      assert NulFree(Meant(xs[0]));
    }
  }

  /**
   Every string is read as it is written: raw bytes as they are, the named escapes by their table,
   and the others as the UTF-8 of their code points, up to just behind the closing quote.
   */
  lemma WrittenStringIsRead(s: bytes, p: nat, xs: seq<Piece>, d: nat)
    requires AllProper(xs) && At(s, p, [34] + AllWritten(xs) + [34])
    ensures p < |s| && ParseStringAt(s, p, d) == Success(AllMeant(xs), p + 2 + |AllWritten(xs)|)
  {
    var end := p + 1 + |AllWritten(xs)|;
    AtSplit3(s, p, [34], AllWritten(xs), [34]);
    PiecesScan(s, p + 1, xs, end);
    PiecesDecode(s, p + 1, xs, end);
    MeantIsNulFree(xs);
    UpToNulOfCString(AllMeant(xs), []);
  }

  /** The letter e with an acute accent, as a printer that keeps to ASCII writes it. */
  lemma AcuteExample()
    ensures ParseStringAt([34, 92, 117, 48, 48, 101, 57, 34], 0, 0) == Success([0xC3, 0xA9], 8)
  {
    var s := [34, 92, 117, 48, 48, 101, 57, 34];
    var t := [92, 117, 48, 48, 101, 57];
    assert Hex4(t, 2) == 0xE9;
    assert EscapeOf(t, 0, 0xE9);
    var xs := [Coded(0xE9, t)];
    assert AllWritten(xs) == t + AllWritten([]) == t;
    assert AllMeant(xs) == Utf8(0xE9) + AllMeant([]) == [0xC3, 0xA9];
    AtIsSlice(s, 0, [34] + AllWritten(xs) + [34]);
    assert s[0..8] == [34] + AllWritten(xs) + [34];
    WrittenStringIsRead(s, 0, xs, 0);
  }

  const UPPER: bytes := [48, 49, 50, 51, 52, 53, 54, 55, 56, 57, 65, 66, 67, 68, 69, 70]
  const LOWER: bytes := [48, 49, 50, 51, 52, 53, 54, 55, 56, 57, 97, 98, 99, 100, 101, 102]

  /** The hexadecimal digits and their values, in either case. */
  lemma HexTable(c: byte)
    ensures IsHex(c) <==> c in UPPER || c in LOWER
    ensures IsHex(c) ==> UPPER[HexDigit(c)] == c || LOWER[HexDigit(c)] == c
  {
    if IsHex(c) {
      assert UPPER[HexDigit(c)] == c || LOWER[HexDigit(c)] == c;
    }
  }

  /** What print_string_ptr writes for a byte: six are named, the others below 32 are written by their digits. */
  lemma EscapeTable(c: byte)
    ensures c >= 32 && c != 34 && c != 92 ==> Escape(c) == [c]
    ensures c == 34 || c == 92 ==> Escape(c) == [92, c]
    ensures c in {8, 9, 10, 12, 13} ==> |Escape(c)| == 2 && Escape(c)[1] in NAMES && NAMES[Escape(c)[1]] == c
    ensures c < 32 && c !in {8, 9, 10, 12, 13} ==>
              Escape(c) == [92, 117, 48, 48, LOWER[c / 16], LOWER[c % 16]]
  {}
}
