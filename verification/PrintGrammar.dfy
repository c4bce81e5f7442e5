/** What the printer writes is JSON, whatever the tree. */
module PrintGrammar {
  import opened Bytes
  import opened JsonValue
  import opened StringCodec
  import opened Numbers
  import opened PrintText
  import G = Grammar

  // ----- numbers

  /** Digits without a zero in front, unless it is the only one. */
  lemma {:induction false} DigitsAreInt(n: nat)
    ensures G.Int(Digits(n)) && (Digits(n)[0] == 48 <==> n == 0)
  {
    if n >= 10 {
      DigitsAreInt(n / 10);
      var front := Digits(n / 10);
      assert Digits(n)[0] == front[0];
      assert G.DigitsFrom(Digits(n), 0);
    } else {
      assert n > 0 ==> G.DigitsFrom(Digits(n), 0);
    }
  }

  /** A minus exactly for the negative, and an int without fraction and exponent. */
  lemma DecimalIsNumber(n: int)
    ensures G.Number(Decimal(n)) && (Decimal(n)[0] == 45 <==> n < 0)
    ensures G.Int(Decimal(n)[if n < 0 then 1 else 0..])
  {
    var t := Decimal(n);
    var m := if n < 0 then 1 else 0;
    DigitsAreInt(if n < 0 then -n else n);
    assert t[m..] == Digits(if n < 0 then -n else n);
    assert t[m..|t|] == t[m..];
    assert G.NumberParts(t, |t|, |t|);
  }

  // ----- strings

  lemma {:induction false} CharsThen(a: bytes, b: bytes)
    requires G.Chars(a) && G.Chars(b)
    ensures G.Chars(a + b)
    decreases |a|
  {
    if a == [] {
      assert a + b == b;
    } else {
      var n := if a[0] != 92 then 1 else if a[1] == 117 then 6 else 2;
      CharsThen(a[n..], b);
      assert (a + b)[n..] == a[n..] + b;
    }
  }

  lemma EscapeIsChar(c: byte)
    ensures G.Chars(Escape(c))
  {
    assert G.Chars([]);
    var e := Escape(c);
    if |e| == 1 {
      assert e[1..] == [];
    } else if |e| == 2 {
      assert e[2..] == [];
    } else {
      assert e[6..] == [];
    }
  }

  lemma {:induction false} EscapedIsChars(s: bytes)
    ensures G.Chars(Escaped(s))
  {
    if s != [] {
      EscapeIsChar(s[0]);
      EscapedIsChars(s[1..]);
      CharsThen(Escape(s[0]), Escaped(s[1..]));
    }
  }

  lemma QuotedIsString(s: bytes)
    ensures G.String(Quoted(s))
  {
    EscapedIsChars(s);
    var q := Quoted(s);
    assert q[1..|q| - 1] == Escaped(s);
  }

  // ----- white space around the parts

  lemma WsBoth(a: bytes, b: bytes)
    requires G.Ws(a) && G.Ws(b)
    ensures G.Ws(a + b)
  {}

  lemma OneElement(a: bytes, v: bytes, b: bytes)
    requires G.Ws(a) && G.Value(v) && G.Ws(b)
    ensures G.Element(a + v + b)
  {
    var t := a + v + b;
    var i, j := |a|, |a| + |v|;
    assert t[..i] == a && t[i..j] == v && t[j..] == b;
  }

  lemma ElementWithin(a: bytes, t: bytes, b: bytes)
    requires G.Ws(a) && G.Element(t) && G.Ws(b)
    ensures G.Element(a + t + b)
  {
    hide G.Value, G.Ws;
    var i, j :| 0 <= i <= j <= |t| && G.Ws(t[..i]) && G.Value(t[i..j]) && G.Ws(t[j..]);
    WsBoth(a, t[..i]);
    WsBoth(t[j..], b);
    OneElement(a + t[..i], t[i..j], t[j..] + b);
    assert t == t[..i] + t[i..j] + t[j..];
    assert a + t[..i] + t[i..j] + (t[j..] + b) == a + t + b;
  }

  lemma ElementsMore(t: bytes, rest: bytes)
    requires G.Element(t) && G.Elements(rest)
    ensures G.Elements(t + [44] + rest)
  {
    hide G.Element;
    var u := t + [44] + rest;
    assert u[|t|] == 44 && u[..|t|] == t && u[|t| + 1..] == rest;
  }

  lemma {:induction false} ElementsBehind(a: bytes, t: bytes)
    requires G.Ws(a) && G.Elements(t)
    ensures G.Elements(a + t)
  {
    hide G.Element;
    if G.Element(t) {
      ElementWithin(a, t, []);
      assert a + t + [] == a + t;
    } else {
      var i :| 0 <= i < |t| && t[i] == 44 && G.Element(t[..i]) && G.Elements(t[i + 1..]);
      ElementWithin(a, t[..i], []);
      ElementsMore(a + t[..i] + [], t[i + 1..]);
      assert t == t[..i] + [44] + t[i + 1..];
      assert a + t[..i] + [] + [44] + t[i + 1..] == a + t;
    }
  }

  lemma OneMember(a: bytes, k: bytes, e: bytes)
    requires G.Ws(a) && G.String(k) && G.Element(e)
    ensures G.Member(a + k + [58] + e)
  {
    hide G.String, G.Element;
    var key := a + k;
    assert key[..|a|] == a && key[|a|..|key|] == k && key[|key|..] == [];
    assert G.Key(key);
    var t := key + [58] + e;
    assert t[|key|] == 58 && t[..|key|] == key && t[|key| + 1..] == e;
  }

  lemma MemberBehind(a: bytes, t: bytes)
    requires G.Ws(a) && G.Member(t)
    ensures G.Member(a + t)
  {
    hide G.Key, G.Element, G.Ws;
    var k :| 0 <= k < |t| && t[k] == 58 && G.Key(t[..k]) && G.Element(t[k + 1..]);
    assert (a + t)[..|a| + k] == a + t[..k] && (a + t)[|a| + k + 1..] == t[k + 1..];
    KeyBehind(a, t[..k]);
    MemberParts(a + t, |a| + k, a + t[..k], t[k + 1..]);
  }

  lemma MemberParts(t: bytes, k: nat, key: bytes, e: bytes)
    requires k < |t| && t[k] == 58 && t[..k] == key && t[k + 1..] == e && G.Key(key) && G.Element(e)
    ensures G.Member(t)
  {}

  lemma KeyBehind(a: bytes, key: bytes)
    requires G.Ws(a) && G.Key(key)
    ensures G.Key(a + key)
  {
    hide G.String, G.Ws;
    var i, j :| 0 <= i <= j <= |key| && G.Ws(key[..i]) && G.String(key[i..j]) && G.Ws(key[j..]);
    var u := a + key;
    WsBoth(a, key[..i]);
    assert u[..|a| + i] == a + key[..i] && u[|a| + i..|a| + j] == key[i..j] && u[|a| + j..] == key[j..];
  }

  lemma MembersMore(t: bytes, rest: bytes)
    requires G.Member(t) && G.Members(rest)
    ensures G.Members(t + [44] + rest)
  {
    hide G.Member;
    var u := t + [44] + rest;
    assert u[|t|] == 44 && u[..|t|] == t && u[|t| + 1..] == rest;
  }

  lemma {:induction false} MembersBehind(a: bytes, t: bytes)
    requires G.Ws(a) && G.Members(t)
    ensures G.Members(a + t)
  {
    hide G.Member;
    if G.Member(t) {
      MemberBehind(a, t);
    } else {
      var i :| 0 <= i < |t| && t[i] == 44 && G.Member(t[..i]) && G.Members(t[i + 1..]);
      MemberBehind(a, t[..i]);
      MembersMore(a + t[..i], t[i + 1..]);
      assert t == t[..i] + [44] + t[i + 1..];
      assert a + t[..i] + [44] + t[i + 1..] == a + t;
    }
  }

  lemma MemberBefore(t: bytes, b: bytes)
    requires G.Member(t) && G.Ws(b)
    ensures G.Member(t + b)
  {
    hide G.Key, G.Element;
    var k :| 0 <= k < |t| && t[k] == 58 && G.Key(t[..k]) && G.Element(t[k + 1..]);
    ElementWithin([], t[k + 1..], b);
    assert [] + t[k + 1..] + b == t[k + 1..] + b;
    assert (t + b)[k] == 58 && (t + b)[..k] == t[..k] && (t + b)[k + 1..] == t[k + 1..] + b;
  }

  lemma {:induction false} MembersBefore(t: bytes, b: bytes)
    requires G.Members(t) && G.Ws(b)
    ensures G.Members(t + b)
    decreases |t|
  {
    hide G.Member;
    if G.Member(t) {
      MemberBefore(t, b);
    } else {
      var i :| 0 <= i < |t| && t[i] == 44 && G.Member(t[..i]) && G.Members(t[i + 1..]);
      MembersBefore(t[i + 1..], b);
      MembersMore(t[..i], t[i + 1..] + b);
      assert t == t[..i] + [44] + t[i + 1..];
      assert t[..i] + [44] + (t[i + 1..] + b) == t + b;
    }
  }

  // ----- the printed text

  lemma OnlyIsWs(format: bool, t: bytes)
    requires G.Ws(t)
    ensures G.Ws(Only(format, t))
  {}

  lemma {:induction false} TextIsValue(v: Json, format: bool, depth: nat)
    ensures G.Value(Text(v, format, depth))
    decreases v, 2
  {
    hide G.Number, G.String, G.Members, G.Elements;
    match v
    case Null =>
    case Bool(_) =>
    case Number(n) => DecimalIsNumber(n);
    case Str(s) => QuotedIsString(s);
    case Arr(items) =>
      var inner := Elements(items, format, depth + 1);
      var t := Text(v, format, depth);
      assert t[1..|t| - 1] == inner;
      if items.Item? {
        ElementsAreElements(items, format, depth + 1);
      }
      assert G.Array(t);
    case Obj(members) =>
      var t := Text(v, format, depth);
      var a, b := Only(format, [NEWLINE]), Only(format, Tabs(depth));
      var inner := MemberTexts(members, format, depth + 1);
      ObjectInner(t, a, inner, b);
      OnlyIsWs(format, [NEWLINE]);
      OnlyIsWs(format, Tabs(depth));
      if members.Member? {
        MembersAreMembers(members, format, depth + 1);
        MembersBehind(a, inner);
        MembersBefore(a + inner, b);
      } else {
        WsBoth(a, inner);
        WsBoth(a + inner, b);
      }
      assert G.Object(t);
  }

  lemma ObjectInner(t: bytes, a: bytes, inner: bytes, b: bytes)
    requires t == [LBRACE] + a + inner + (b + [RBRACE])
    ensures |t| >= 2 && t[0] == 123 && t[|t| - 1] == 125 && t[1..|t| - 1] == a + inner + b
  {}

  lemma {:induction false} ElementsAreElements(items: Items, format: bool, depth: nat)
    requires items.Item?
    ensures G.Elements(Elements(items, format, depth))
    decreases items, 1
  {
    hide G.Value, G.Element, Text;
    var value := Text(items.value, format, depth);
    TextIsValue(items.value, format, depth);
    OneElement([], value, []);
    assert [] + value + [] == value;
    ElementsApart(items, format, depth);
    if items.next.Item? {
      var rest := Elements(items.next, format, depth);
      var blank := Only(format, [SPACE]);
      ElementsAreElements(items.next, format, depth);
      ElementsBehind(blank, rest);
      ElementsMore(value, blank + rest);
      assert value + ([COMMA] + blank) + rest == value + [44] + (blank + rest);
    } else {
      assert value + [] + [] == value;
    }
  }

  lemma {:induction false} MembersAreMembers(members: Members, format: bool, depth: nat)
    requires members.Member?
    ensures G.Members(MemberTexts(members, format, depth))
    decreases members, 1
  {
    hide G.Value, G.Element, G.Member, Text, Quoted;
    var value := Text(members.value, format, depth);
    var blank, newline := Only(format, [TAB]), Only(format, [NEWLINE]);
    var member := Indent(format, depth) + Quoted(members.key) + [58] + (blank + value + []);
    TextIsValue(members.value, format, depth);
    OneElement(blank, value, []);
    QuotedIsString(members.key);
    OneMember(Indent(format, depth), Quoted(members.key), blank + value + []);
    MembersApart(members, format, depth);
    MemberLine(members, format, depth);
    if members.next.Member? {
      var rest := MemberTexts(members.next, format, depth);
      MembersAreMembers(members.next, format, depth);
      MembersBehind(newline, rest);
      MembersMore(member, newline + rest);
      assert member + ([COMMA] + newline) + rest == member + [44] + (newline + rest);
    } else {
      MemberBefore(member, newline);
      assert member + ([] + newline) + [] == member + newline;
    }
  }

  /** A printed member, taken apart as the grammar has it. */
  lemma MemberLine(members: Members, format: bool, depth: nat)
    requires members.Member?
    ensures FirstMember(members, format, depth) ==
            Indent(format, depth) + Quoted(members.key) + [58]
            + (Only(format, [TAB]) + Text(members.value, format, depth) + [])
            + ((if members.next.Member? then [COMMA] else []) + Only(format, [NEWLINE]))
  {
    hide Text, Quoted;
    var a, k, b := Indent(format, depth), Quoted(members.key), Only(format, [TAB]);
    var v := Text(members.value, format, depth);
    assert a + k + ([COLON] + b) + v == a + k + [58] + (b + v + []);
  }

  /** Every printed text is a JSON text. */
  lemma PrintedTextIsJson(v: Json, format: bool)
    ensures G.JsonText(Text(v, format, 0))
  {
    var t := Text(v, format, 0);
    TextIsValue(v, format, 0);
    OneElement([], t, []);
    assert [] + t + [] == t;
  }

  // ----- examples: how a formatted text is laid out

  lemma LetterQuoted(c: byte)
    requires 97 <= c <= 98
    ensures Quoted([c]) == [34, c, 34]
  {
    EscapedOne(c);
  }

  lemma ExampleTabs()
    ensures Tabs(0) == [] && Tabs(1) == [9] && Tabs(2) == [9, 9]
  {}

  lemma DigitText(n: int, format: bool, depth: nat)
    requires 0 <= n < 10
    ensures Text(Number(n), format, depth) == [48 + n]
  {}

  /** A space behind the comma of an array: [1,2]. */
  lemma FormattedArray()
    ensures Text(Arr(Item(Number(1), Item(Number(2), NoItem))), true, 0) == [91, 49, 44, 32, 50, 93]
  {
    hide Text;
    var items := Item(Number(1), Item(Number(2), NoItem));
    DigitText(1, true, 1);
    DigitText(2, true, 1);
    ElementsApart(items, true, 1);
    ElementsApart(items.next, true, 1);
    assert Elements(NoItem, true, 1) == [];
    ArrayText(items);
  }

  lemma ArrayText(items: Items)
    ensures Text(Arr(items), true, 0) == [91] + Elements(items, true, 1) + [93]
  {}

  lemma ObjectText(members: Members, depth: nat)
    ensures Text(Obj(members), true, depth) ==
            [123, 10] + MemberTexts(members, true, depth + 1) + (Tabs(depth) + [125])
  {}

  lemma LastMember(c: byte, v: Json, depth: nat)
    requires 97 <= c <= 98
    ensures MemberTexts(Member([c], v, NoMember), true, depth) ==
            Tabs(depth) + [34, c, 34, 58, 9] + Text(v, true, depth) + [10]
  {
    hide Text, Quoted, Tabs;
    LetterQuoted(c);
    MembersApart(Member([c], v, NoMember), true, depth);
    assert MemberTexts(NoMember, true, depth) == [];
  }

  /** A line for each member, a tab behind its colon: {"a":1,"b":{}}. */
  lemma FormattedObject()
    ensures Text(Obj(Member([97], Number(1), Member([98], Obj(NoMember), NoMember))), true, 0) ==
            [123, 10, 9, 34, 97, 34, 58, 9, 49, 44, 10, 9, 34, 98, 34, 58, 9, 123, 10, 9, 125, 10, 125]
  {
    hide Text, Quoted, Tabs, MemberTexts;
    var rest := Member([98], Obj(NoMember), NoMember);
    ExampleTabs();
    LetterQuoted(97);
    DigitText(1, true, 1);
    NoMembers(2);
    ObjectText(NoMember, 1);
    LastMember(98, Obj(NoMember), 1);
    assert MemberTexts(rest, true, 1) == [9, 34, 98, 34, 58, 9, 123, 10, 9, 125, 10];
    MembersApart(Member([97], Number(1), rest), true, 1);
    assert FirstMember(Member([97], Number(1), rest), true, 1) == [9, 34, 97, 34, 58, 9, 49, 44, 10];
    ObjectText(Member([97], Number(1), rest), 0);
  }

  lemma NoMembers(depth: nat)
    ensures MemberTexts(NoMember, true, depth) == []
  {}

  /** As many tabs as there are arrays and objects around: [{"a":1}]. */
  lemma FormattedNesting()
    ensures Text(Arr(Item(Obj(Member([97], Number(1), NoMember)), NoItem)), true, 0) ==
            [91, 123, 10, 9, 9, 34, 97, 34, 58, 9, 49, 10, 9, 125, 93]
  {
    hide Text, Tabs, MemberTexts;
    var items := Item(Obj(Member([97], Number(1), NoMember)), NoItem);
    ExampleTabs();
    DigitText(1, true, 2);
    LastMember(97, Number(1), 2);
    ObjectText(items.value.members, 1);
    ElementsApart(items, true, 1);
    assert Elements(NoItem, true, 1) == [];
    ArrayText(items);
  }
}
