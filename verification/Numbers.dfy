/** The decimal text of an int, and what parse_number reads from a number text. */
module Numbers {
  import opened Bytes

  // ----- print_number, "%d"

  function Digits(n: nat): (r: bytes)
    ensures |r| > 0 && AllDigits(r)
  {
    if n < 10 then [ZERO + n] else Digits(n / 10) + [ZERO + n % 10]
  }

  function Decimal(n: int): (r: bytes)
    ensures |r| > 0 && (r[0] == MINUS || IsDigit(r[0]))
  {
    if n < 0 then [MINUS] + Digits(-n) else Digits(n)
  }

  predicate AllDigits(t: bytes) {
    forall i :: 0 <= i < |t| ==> IsDigit(t[i])
  }

  function NatOf(t: bytes): nat
    requires AllDigits(t)
  {
    if t == [] then 0 else NatOf(t[..|t| - 1]) * 10 + (t[|t| - 1] - ZERO)
  }

  lemma {:induction false} DigitsReadBack(n: nat)
    ensures NatOf(Digits(n)) == n
  {
    if n < 10 {
      assert Digits(n)[..0] == [];
    } else {
      DigitsReadBack(n / 10);
      assert Digits(n)[..|Digits(n)| - 1] == Digits(n / 10);
    }
  }

  function Pow10(k: nat): (r: nat)
    ensures r > 0
  {
    if k == 0 then 1 else 10 * Pow10(k - 1)
  }

  lemma {:induction false} DigitsLength(n: nat, k: nat)
    requires k > 0 && n < Pow10(k)
    ensures |Digits(n)| <= k
  {
    if n >= 10 {
      assert n / 10 < Pow10(k - 1);
      DigitsLength(n / 10, k - 1);
    }
  }

  lemma DecimalLength(n: int)
    requires INT_MIN <= n <= INT_MAX
    ensures |Decimal(n)| <= 11
  {
    assert Pow10(3) == 1000;
    assert Pow10(6) == 1000 * Pow10(3);
    assert Pow10(10) == 10000 * Pow10(6);
    DigitsLength(if n < 0 then -n else n, 10);
  }

  // ----- strtod on a text of digits, signs, points and exponents

  /** How many digits stand at i. */
  function DigitRun(t: bytes, i: nat): (k: nat)
    requires i <= |t|
    ensures i + k <= |t| && AllDigits(t[i..i + k])
    ensures i + k < |t| ==> !IsDigit(t[i + k])
    decreases |t| - i
  {
    if i < |t| && IsDigit(t[i]) then
      var k := DigitRun(t, i + 1);
      assert t[i..i + k + 1] == [t[i]] + t[i + 1..i + 1 + k];
      k + 1
    else 0
  }

  function SignLength(t: bytes, i: nat): (k: nat)
    ensures k <= 1 && (i <= |t| ==> i + k <= |t|)
  {
    if i < |t| && (t[i] == MINUS || t[i] == PLUS) then 1 else 0
  }

  /** The exponent part at i: its length, 0 when no digit follows, and its value. */
  function Exponent(t: bytes, i: nat): (r: (nat, int))
    requires i <= |t|
    ensures i + r.0 <= |t|
  {
    if i < |t| && (t[i] == LOWER_E || t[i] == UPPER_E) then
      var digits := i + 1 + SignLength(t, i + 1);
      var k := DigitRun(t, digits);
      if k == 0 then (0, 0)
      else
        var e: int := NatOf(t[digits..digits + k]);
        (digits + k - i, if t[i + 1] == MINUS then -e else e)
    else (0, 0)
  }

  /** A decimal literal: the integer `mantissa` times ten to the `exponent`. */
  datatype Literal = NoNumber | Literal(consumed: nat, negative: bool, mantissa: nat, exponent: int)

  /** The longest decimal literal at the front of t, as strtod delimits it. */
  function Strtod(t: bytes): (r: Literal)
    ensures r.Literal? ==> 0 < r.consumed <= |t|
  {
    var i := SignLength(t, 0);
    var whole := DigitRun(t, i);
    var point := i + whole;
    var fraction := if point < |t| && t[point] == DOT then DigitRun(t, point + 1) else 0;
    if whole + fraction == 0 then NoNumber
    else
      var end := if point < |t| && t[point] == DOT then point + 1 + fraction else point;
      var digits := t[i..point] + (if end > point then t[point + 1..end] else []);
      assert AllDigits(digits);
      var e := Exponent(t, end);
      Literal(end + e.0, i > 0 && t[0] == MINUS, NatOf(digits), e.1 - fraction)
  }

  function Clamp(n: int): (r: int)
    ensures INT_MIN <= r <= INT_MAX
  {
    if n >= INT_MAX then INT_MAX else if n <= INT_MIN then INT_MIN else n
  }

  /** valueint: the literal truncated toward zero, clamped to the range of int. */
  function IntOf(l: Literal): int
    requires l.Literal?
  {
    var magnitude :=
      if l.exponent >= 0 then l.mantissa * Pow10(l.exponent) else l.mantissa / Pow10(-l.exponent);
    Clamp(if l.negative then -magnitude else magnitude)
  }

  // ----- parse_number

  predicate IsNumberChar(c: byte) {
    IsDigit(c) || c == PLUS || c == MINUS || c == LOWER_E || c == UPPER_E || c == DOT
  }

  /** Where the run of number characters from o ends, not looking past stop. */
  function NumberEnd(s: bytes, o: nat, stop: nat): (end: nat)
    requires o <= stop <= |s|
    ensures o <= end <= stop
    ensures end < stop ==> !IsNumberChar(s[end])
    decreases stop - o
  {
    if o < stop && IsNumberChar(s[o]) then NumberEnd(s, o + 1, stop) else o
  }

  /** The copy of the text has 64 bytes, the last one for the terminator. */
  function NumberStop(s: bytes, o: nat): (stop: nat)
    requires o <= |s|
    ensures o <= stop <= |s|
  {
    if |s| < o + 63 then |s| else o + 63
  }

  function NumberText(s: bytes, o: nat): bytes
    requires o <= |s|
  {
    s[o..NumberEnd(s, o, NumberStop(s, o))]
  }

  function ParseNumberAt(s: bytes, o: nat): (r: Literal)
    requires o <= |s|
    ensures r.Literal? ==> o < o + r.consumed <= |s|
  {
    Strtod(NumberText(s, o))
  }

  method CopyNumber(content: bytes, offset: nat) returns (text: bytes)
    requires offset <= |content|
    ensures text == NumberText(content, offset)
  {
    var numberCString := new byte[64];
    var i := 0;
    while i < numberCString.Length - 1 && offset + i < |content| && IsNumberChar(content[offset + i])
      invariant 0 <= i <= 63 && offset + i <= |content|
      invariant NumberEnd(content, offset + i, NumberStop(content, offset)) ==
                NumberEnd(content, offset, NumberStop(content, offset))
      invariant forall j :: 0 <= j < i ==> numberCString[j] == content[offset + j]
    {
      numberCString[i] := content[offset + i];
      i := i + 1;
    }
    numberCString[i] := NUL;
    text := numberCString[..i];
    assert text == content[offset..offset + i];
  }

  // ----- reading back what was printed

  lemma {:induction false} DigitRunOfDigits(t: bytes, i: nat)
    requires i <= |t| && AllDigits(t[i..])
    ensures DigitRun(t, i) == |t| - i
    decreases |t| - i
  {
    if i < |t| {
      assert t[i..][0] == t[i];
      assert t[i + 1..] == t[i..][1..];
      DigitRunOfDigits(t, i + 1);
    }
  }

  lemma StrtodOfDecimal(n: int)
    ensures Strtod(Decimal(n)) ==
            Literal(|Decimal(n)|, n < 0, if n < 0 then -n else n, 0)
  {
    var t := Decimal(n);
    var i := SignLength(t, 0);
    var m := if n < 0 then -n else n;
    assert t[i..] == Digits(m);
    DigitRunOfDigits(t, i);
    DigitsReadBack(m);
    assert t[i..|t|] + [] == Digits(m);
  }

  lemma {:induction false} NumberEndOfText(s: bytes, o: nat, stop: nat, t: bytes)
    requires At(s, o, t) && o + |t| <= stop <= |s| && forall i :: 0 <= i < |t| ==> IsNumberChar(t[i])
    requires o + |t| < stop ==> !IsNumberChar(s[o + |t|])
    ensures NumberEnd(s, o, stop) == o + |t|
    decreases |t|
  {
    if t != [] {
      AtSplit(s, o, t[..1], t[1..]);
      assert t == t[..1] + t[1..];
      AtIndex(s, o, t, 0);
      NumberEndOfText(s, o + 1, stop, t[1..]);
    }
  }

  lemma NumberTextOfDecimal(s: bytes, o: nat, n: int)
    requires INT_MIN <= n <= INT_MAX && At(s, o, Decimal(n))
    requires o + |Decimal(n)| < |s| ==> !IsNumberChar(s[o + |Decimal(n)|])
    ensures NumberText(s, o) == Decimal(n)
  {
    var t := Decimal(n);
    DecimalLength(n);
    AtIsSlice(s, o, t);
    assert forall i :: 0 <= i < |t| ==> IsNumberChar(t[i]);
    NumberEndOfText(s, o, NumberStop(s, o), t);
  }

  /** A printed int, not followed by more number text, is read as itself and consumed whole. */
  lemma NumberReadsBack(s: bytes, o: nat, n: int)
    requires INT_MIN <= n <= INT_MAX && At(s, o, Decimal(n))
    requires o + |Decimal(n)| < |s| ==> !IsNumberChar(s[o + |Decimal(n)|])
    ensures var r := ParseNumberAt(s, o);
            r.Literal? && r.consumed == |Decimal(n)| && IntOf(r) == n
  {
    NumberTextOfDecimal(s, o, n);
    StrtodOfDecimal(n);
    assert Pow10(0) == 1;
  }

  // ----- other number texts

  /** An int keeps within 32 bits: what lies beyond becomes the nearest end. */
  lemma Saturates(l: Literal)
    requires l.Literal? && l.exponent >= 0
    ensures var value := (if l.negative then -1 else 1) * (l.mantissa * Pow10(l.exponent));
            && (value > 2147483647 ==> IntOf(l) == 2147483647)
            && (value < -2147483648 ==> IntOf(l) == -2147483648)
            && (-2147483648 <= value <= 2147483647 ==> IntOf(l) == value)
  {}

  lemma Quotient(m: nat, p: nat)
    requires p > 0
    ensures m / p * p <= m < (m / p + 1) * p
  {
    var q := m / p;
    assert m == q * p + m % p;
    assert (q + 1) * p == q * p + p;
  }

  /** What stands behind the point is cut off, toward zero. */
  lemma CutsOff(l: Literal)
    requires l.Literal? && l.exponent < 0 && l.mantissa / Pow10(-l.exponent) <= 2147483647
    ensures var whole := if l.negative then -IntOf(l) else IntOf(l);
            whole >= 0 && whole * Pow10(-l.exponent) <= l.mantissa < (whole + 1) * Pow10(-l.exponent)
  {
    hide Pow10;
    var q := l.mantissa / Pow10(-l.exponent);
    Quotient(l.mantissa, Pow10(-l.exponent));
    assert IntOf(l) == if l.negative then -q else q;
  }

  /** Digits from i to j and no more. */
  predicate RunsTo(t: bytes, i: nat, j: nat) {
    i <= j <= |t| && AllDigits(t[i..j]) && (j < |t| ==> !IsDigit(t[j]))
  }

  lemma {:induction false} RunIs(t: bytes, i: nat, j: nat)
    requires RunsTo(t, i, j)
    ensures DigitRun(t, i) == j - i
    decreases j - i
  {
    if i < j {
      assert t[i] == t[i..j][0] && t[i + 1..j] == t[i..j][1..];
      RunIs(t, i + 1, j);
    }
  }

  /**
   A number with an exponent: a minus perhaps, digits up to j, a point and digits up to k or neither,
   the letter, a sign perhaps, and digits from d on.
   */
  predicate Scientific(t: bytes, j: nat, k: nat, d: nat) {
    && t != [] && (if t[0] == 45 then 1 else 0) < j <= k < d < |t|
    && RunsTo(t, if t[0] == 45 then 1 else 0, j)
    && (if k == j then true else t[j] == 46 && RunsTo(t, j + 1, k))
    && (t[k] == 101 || t[k] == 69)
    && (d == k + 1 || (d == k + 2 && (t[k + 1] == 43 || t[k + 1] == 45)))
    && RunsTo(t, d, |t|) && IsDigit(t[d])
  }

  lemma ExponentIs(t: bytes, j: nat, k: nat, d: nat)
    requires Scientific(t, j, k, d)
    ensures var e: int := NatOf(t[d..]);
            Exponent(t, k) == (|t| - k, if t[k + 1] == 45 then -e else e)
  {
    hide DigitRun, NatOf;
    RunIs(t, d, |t|);
    assert t[d..|t|] == t[d..];
  }

  lemma PartsAre(t: bytes, j: nat, k: nat, d: nat)
    requires Scientific(t, j, k, d)
    ensures var i := if t[0] == 45 then 1 else 0;
            && SignLength(t, 0) == i && DigitRun(t, i) == j - i && (t[j] == 46 <==> j < k)
            && (j < k ==> DigitRun(t, j + 1) == k - j - 1)
  {
    hide DigitRun;
    var i := if t[0] == 45 then 1 else 0;
    assert IsDigit(t[i]) by {
      assert t[i..j][0] == t[i];
    }
    RunIs(t, i, j);
    if j < k {
      RunIs(t, j + 1, k);
    }
  }

  /** It is read as its digits without the point, times ten to the exponent less the digits behind the point. */
  lemma LiteralOf(t: bytes, j: nat, k: nat, d: nat)
    requires Scientific(t, j, k, d)
    ensures var i := if t[0] == 45 then 1 else 0;
            var fraction := if k == j then [] else t[j + 1..k];
            var e: int := NatOf(t[d..]);
            && AllDigits(t[i..j] + fraction)
            && Strtod(t) == Literal(|t|, t[0] == 45, NatOf(t[i..j] + fraction),
                                    (if t[k + 1] == 45 then -e else e) - |fraction|)
  {
    hide DigitRun, NatOf, Exponent, SignLength, AllDigits, Strtod;
    var i := if t[0] == 45 then 1 else 0;
    assert t[d..|t|] == t[d..];
    var e: int := NatOf(t[d..]);
    PartsAre(t, j, k, d);
    ExponentIs(t, j, k, d);
    StrtodOfParts(t, i, j, k, if t[k + 1] == 45 then -e else e);
  }

  lemma StrtodOfParts(t: bytes, i: nat, j: nat, k: nat, e: int)
    requires SignLength(t, 0) == i < j <= k < |t| && DigitRun(t, i) == j - i
    requires (t[j] == 46 <==> j < k) && (j < k ==> DigitRun(t, j + 1) == k - j - 1)
    requires Exponent(t, k) == (|t| - k, e)
    ensures var fraction := if k == j then [] else t[j + 1..k];
            && AllDigits(t[i..j] + fraction)
            && Strtod(t) == Literal(|t|, i > 0 && t[0] == 45, NatOf(t[i..j] + fraction), e - |fraction|)
  {
    hide NatOf, Exponent, SignLength, DigitRun;
    if j < k {
      DigitsOfBoth(t[i..j], t[j + 1..k]);
    } else {
      DigitsOfBoth(t[i..j], []);
    }
  }

  lemma DigitsOfBoth(a: bytes, b: bytes)
    requires AllDigits(a) && AllDigits(b)
    ensures AllDigits(a + b)
  {}

  lemma DecimalHasNoNul(n: int)
    ensures NulFree(Decimal(n))
  {
    forall i | 0 <= i < |Decimal(n)|
      ensures Decimal(n)[i] != NUL
    {
    }
  }
}
