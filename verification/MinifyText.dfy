/** Minifying what the printer wrote, formatted or not, leaves the unformatted text. */
module MinifyText {
  import opened Bytes
  import opened JsonValue
  import opened StringCodec
  import opened Numbers
  import opened PrintText
  import opened Minify
  import opened Wrappers

  /** Of the text from p up to q only t is left. */
  ghost predicate Leaves(s: bytes, p: nat, q: nat, t: bytes) {
    p <= q <= |s| && MinifyFrom(s, p) == Copied(t, MinifyFrom(s, q))
  }

  lemma LeavesThen(s: bytes, p: nat, q: nat, r: nat, a: bytes, b: bytes)
    requires Leaves(s, p, q, a) && Leaves(s, q, r, b)
    ensures Leaves(s, p, r, a + b)
  {
    CopiedTwice(a, b, MinifyFrom(s, r));
  }

  lemma LeavesThree(s: bytes, p: nat, q: nat, r: nat, e: nat, a: bytes, b: bytes, c: bytes)
    requires Leaves(s, p, q, a) && Leaves(s, q, r, b) && Leaves(s, r, e, c)
    ensures Leaves(s, p, e, a + b + c)
  {
    LeavesThen(s, p, q, r, a, b);
    LeavesThen(s, p, r, e, a + b, c);
  }

  lemma LeavesNothing(s: bytes, p: nat)
    requires p <= |s|
    ensures Leaves(s, p, p, [])
  {
    CopiedTwice([], [], MinifyFrom(s, p));
  }

  // ----- the tokens of a printed text

  predicate AllPlain(t: bytes) {
    t != [] ==> IsPlain(t[0]) && AllPlain(t[1..])
  }

  lemma {:induction false} PlainIsLeft(s: bytes, p: nat, t: bytes)
    requires At(s, p, t) && AllPlain(t)
    ensures Leaves(s, p, p + |t|, t)
    decreases |t|
  {
    if t == [] {
      LeavesNothing(s, p);
    } else {
      PlainIsLeft(s, p + 1, t[1..]);
      LeavesThen(s, p, p + 1, p + |t|, [t[0]], t[1..]);
      assert [t[0]] + t[1..] == t;
    }
  }

  predicate AllBlank(t: bytes) {
    t != [] ==> IsBlank(t[0]) && AllBlank(t[1..])
  }

  lemma {:induction false} BlankIsDropped(s: bytes, p: nat, t: bytes)
    requires At(s, p, t) && AllBlank(t)
    ensures Leaves(s, p, p + |t|, [])
    decreases |t|
  {
    if t == [] {
      LeavesNothing(s, p);
    } else {
      BlankIsDropped(s, p + 1, t[1..]);
    }
  }

  lemma {:induction false} TabsAreBlank(n: nat)
    ensures AllBlank(Tabs(n))
  {
    if n > 0 {
      TabsAreBlank(n - 1);
      assert Tabs(n)[1..] == Tabs(n - 1);
    }
  }

  lemma {:induction false} DigitsArePlain(n: nat)
    ensures AllPlain(Digits(n))
  {
    if n >= 10 {
      DigitsArePlain(n / 10);
      PlainThen(Digits(n / 10), [ZERO + n % 10]);
    }
  }

  lemma LiteralsArePlain()
    ensures AllPlain(NULL_TEXT) && AllPlain(TRUE_TEXT) && AllPlain(FALSE_TEXT)
  {
    PlainThen([LOWER_N, LOWER_U], [LOWER_L, LOWER_L]);
    PlainThen([LOWER_T, LOWER_R], [LOWER_U, LOWER_E]);
    PlainThen([LOWER_F, LOWER_A], [LOWER_L, LOWER_S]);
    PlainThen([LOWER_F, LOWER_A] + [LOWER_L, LOWER_S], [LOWER_E]);
    assert NULL_TEXT == [LOWER_N, LOWER_U] + [LOWER_L, LOWER_L];
    assert TRUE_TEXT == [LOWER_T, LOWER_R] + [LOWER_U, LOWER_E];
    assert FALSE_TEXT == [LOWER_F, LOWER_A] + [LOWER_L, LOWER_S] + [LOWER_E];
  }

  lemma {:induction false} PlainThen(a: bytes, b: bytes)
    requires AllPlain(a) && AllPlain(b)
    ensures AllPlain(a + b)
  {
    if a == [] {
      assert a + b == b;
    } else {
      PlainThen(a[1..], b);
      assert (a + b)[1..] == a[1..] + b;
    }
  }

  lemma DecimalIsPlain(n: int)
    ensures AllPlain(Decimal(n))
  {
    DigitsArePlain(if n < 0 then -n else n);
    if n < 0 {
      PlainThen([MINUS], Digits(-n));
    }
  }

  // ----- a string is copied whole

  lemma {:induction false} EscapedIsPassed(s: bytes, p: nat, t: bytes)
    requires At(s, p, Escaped(t))
    ensures p + |Escaped(t)| <= |s| && StringEnd(s, p) == StringEnd(s, p + |Escaped(t)|)
    decreases |t|
  {
    hide At, Escape;
    if t == [] {
      AtFits(s, p, []);
    } else {
      var q := EscapedAt(s, p, t);
      EscapedIsPassed(s, q, t[1..]);
      OverEscape(s, p, t[0]);
    }
  }

  lemma OverEscape(s: bytes, p: nat, c: byte)
    requires At(s, p, Escape(c))
    ensures p + |Escape(c)| <= |s| && StringEnd(s, p) == StringEnd(s, p + |Escape(c)|)
  {
    var e := Escape(c);
    AtFits(s, p, e);
    AtIndex(s, p, e, 0);
    if |e| == 6 {
      AtIndex(s, p, e, 2);
      AtIndex(s, p, e, 3);
      AtIndex(s, p, e, 4);
      AtIndex(s, p, e, 5);
      assert StringEnd(s, p + 2) == StringEnd(s, p + 3) == StringEnd(s, p + 4);
      assert StringEnd(s, p + 4) == StringEnd(s, p + 5) == StringEnd(s, p + 6);
    }
  }

  lemma StringIsLeft(s: bytes, p: nat, t: bytes)
    requires At(s, p, Quoted(t))
    ensures Leaves(s, p, p + |Quoted(t)|, Quoted(t))
  {
    var e := p + |Quoted(t)|;
    AtSplit3(s, p, [QUOTE], Escaped(t), [QUOTE]);
    AtIsSlice(s, p, Quoted(t));
    EscapedIsPassed(s, p + 1, t);
    assert s[e - 1] == QUOTE;
    assert StringEnd(s, p + 1) == Some(e);
  }

  // ----- the pieces between values

  lemma OptionalBlank(s: bytes, p: nat, format: bool, t: bytes)
    requires At(s, p, Only(format, t)) && AllBlank(t)
    ensures Leaves(s, p, p + |Only(format, t)|, Only(false, t))
  {
    BlankIsDropped(s, p, Only(format, t));
  }

  lemma MarkThenBlank(s: bytes, p: nat, c: byte, format: bool, t: bytes)
    requires At(s, p, [c] + Only(format, t)) && IsPlain(c) && AllBlank(t)
    ensures var q := p + |[c] + Only(format, t)|; Leaves(s, p, q, [c] + Only(false, t))
  {
    AtSplit(s, p, [c], Only(format, t));
    PlainIsLeft(s, p, [c]);
    OptionalBlank(s, p + 1, format, t);
    LeavesThen(s, p, p + 1, p + 1 + |Only(format, t)|, [c], []);
  }

  lemma SeparatorIsLeft(s: bytes, p: nat, more: bool, format: bool)
    requires At(s, p, Separator(more, format))
    ensures Leaves(s, p, p + |Separator(more, format)|, Separator(more, false))
  {
    if more {
      MarkThenBlank(s, p, COMMA, format, [SPACE]);
    } else {
      LeavesNothing(s, p);
    }
  }

  lemma LineEndIsLeft(s: bytes, p: nat, more: bool, format: bool)
    requires At(s, p, LineEnd(more, format))
    ensures Leaves(s, p, p + |LineEnd(more, format)|, LineEnd(more, false))
  {
    if more {
      MarkThenBlank(s, p, COMMA, format, [NEWLINE]);
    } else {
      assert LineEnd(more, format) == Only(format, [NEWLINE]);
      OptionalBlank(s, p, format, [NEWLINE]);
    }
  }

  lemma KeyIsLeft(s: bytes, p: nat, key: bytes, format: bool, indent: nat)
    requires At(s, p, Key(key, format, indent))
    ensures Leaves(s, p, p + |Key(key, format, indent)|, Key(key, false, indent))
  {
    hide At, Leaves, Quoted;
    var q := p + |Indent(format, indent)|;
    var r := q + |Quoted(key)|;
    AtSplit3(s, p, Indent(format, indent), Quoted(key), AfterKey(format));
    TabsAreBlank(indent);
    OptionalBlank(s, p, format, Tabs(indent));
    StringIsLeft(s, q, key);
    MarkThenBlank(s, r, COLON, format, [TAB]);
    LeavesThree(s, p, q, r, r + |AfterKey(format)|, [], Quoted(key), AfterKey(false));
  }

  lemma OpeningIsLeft(s: bytes, p: nat, format: bool)
    requires At(s, p, Opening(format))
    ensures Leaves(s, p, p + |Opening(format)|, Opening(false))
  {
    MarkThenBlank(s, p, LBRACE, format, [NEWLINE]);
  }

  lemma ClosingIsLeft(s: bytes, p: nat, format: bool, indent: nat)
    requires At(s, p, Closing(format, indent))
    ensures Leaves(s, p, p + |Closing(format, indent)|, Closing(false, indent))
  {
    hide Leaves;
    var q := p + |Only(format, Tabs(indent))|;
    AtSplit(s, p, Only(format, Tabs(indent)), [RBRACE]);
    TabsAreBlank(indent);
    OptionalBlank(s, p, format, Tabs(indent));
    PlainIsLeft(s, q, [RBRACE]);
    LeavesThen(s, p, q, q + 1, [], [RBRACE]);
  }

  // ----- values

  /** Wherever a value stands in a text, its unformatted print is what is left of it. */
  lemma {:induction false} ValueIsLeft(s: bytes, p: nat, v: Json, format: bool, indent: nat)
    requires At(s, p, Text(v, format, indent))
    ensures Leaves(s, p, p + |Text(v, format, indent)|, Text(v, false, indent))
    decreases v, 2
  {
    hide At, Leaves, AllPlain;
    match v
    case Null =>
      LiteralsArePlain();
      PlainIsLeft(s, p, NULL_TEXT);
    case Bool(b) =>
      LiteralsArePlain();
      PlainIsLeft(s, p, if b then TRUE_TEXT else FALSE_TEXT);
    case Number(n) =>
      DecimalIsPlain(n);
      PlainIsLeft(s, p, Decimal(n));
    case Str(t) => StringIsLeft(s, p, t);
    case Arr(items) => ArrayIsLeft(s, p, items, format, indent + 1);
    case Obj(members) => ObjectIsLeft(s, p, members, format, indent);
  }

  lemma {:induction false} ArrayIsLeft(s: bytes, p: nat, items: Items, format: bool, indent: nat)
    requires At(s, p, [LBRACKET] + Elements(items, format, indent) + [RBRACKET])
    ensures Leaves(s, p, p + |[LBRACKET] + Elements(items, format, indent) + [RBRACKET]|,
                   [LBRACKET] + Elements(items, false, indent) + [RBRACKET])
    decreases items, 2
  {
    hide Elements, Leaves;
    var inner := Elements(items, format, indent);
    AtSplit3(s, p, [LBRACKET], inner, [RBRACKET]);
    PlainIsLeft(s, p, [LBRACKET]);
    ElementsAreLeft(s, p + 1, items, format, indent);
    PlainIsLeft(s, p + 1 + |inner|, [RBRACKET]);
    LeavesThree(s, p, p + 1, p + 1 + |inner|, p + 2 + |inner|,
                [LBRACKET], Elements(items, false, indent), [RBRACKET]);
  }

  lemma {:induction false} ElementsAreLeft(s: bytes, p: nat, items: Items, format: bool, indent: nat)
    requires At(s, p, Elements(items, format, indent))
    ensures Leaves(s, p, p + |Elements(items, format, indent)|, Elements(items, false, indent))
    decreases items, 1
  {
    hide *;
    if items.NoItem? {
      NoElementsLeft(s, p, format, indent);
    } else {
      var r := p + |FirstElement(items, format, indent)|;
      ElementsApart(items, format, indent);
      ElementsApart(items, false, indent);
      AtSplit(s, p, FirstElement(items, format, indent), Elements(items.next, format, indent));
      FirstElementIsLeft(s, p, items, format, indent);
      ElementsAreLeft(s, r, items.next, format, indent);
      LeavesThen(s, p, r, r + |Elements(items.next, format, indent)|,
                 FirstElement(items, false, indent), Elements(items.next, false, indent));
    }
  }

  lemma NoElementsLeft(s: bytes, p: nat, format: bool, indent: nat)
    requires At(s, p, Elements(NoItem, format, indent))
    ensures Leaves(s, p, p + |Elements(NoItem, format, indent)|, Elements(NoItem, false, indent))
  {
    LeavesNothing(s, p);
  }

  lemma {:induction false} FirstElementIsLeft(s: bytes, p: nat, items: Items, format: bool, indent: nat)
    requires items.Item? && At(s, p, FirstElement(items, format, indent))
    ensures Leaves(s, p, p + |FirstElement(items, format, indent)|, FirstElement(items, false, indent))
    decreases items, 0
  {
    hide At, Leaves, Separator, Text;
    var value := Text(items.value, format, indent);
    var separator := Separator(items.next.Item?, format);
    AtSplit(s, p, value, separator);
    ValueIsLeft(s, p, items.value, format, indent);
    SeparatorIsLeft(s, p + |value|, items.next.Item?, format);
    LeavesThen(s, p, p + |value|, p + |value| + |separator|,
               Text(items.value, false, indent), Separator(items.next.Item?, false));
  }

  lemma {:induction false} ObjectIsLeft(s: bytes, p: nat, members: Members, format: bool, indent: nat)
    requires At(s, p, Opening(format) + MemberTexts(members, format, indent + 1) + Closing(format, indent))
    ensures Leaves(s, p, p + |Opening(format) + MemberTexts(members, format, indent + 1) + Closing(format, indent)|,
                   Opening(false) + MemberTexts(members, false, indent + 1) + Closing(false, indent))
    decreases members, 2
  {
    hide *;
    var inner := MemberTexts(members, format, indent + 1);
    var q := p + |Opening(format)|;
    var r := q + |inner|;
    AtSplit3(s, p, Opening(format), inner, Closing(format, indent));
    OpeningIsLeft(s, p, format);
    MembersAreLeft(s, q, members, format, indent + 1);
    ClosingIsLeft(s, r, format, indent);
    LeavesThree(s, p, q, r, r + |Closing(format, indent)|,
                Opening(false), MemberTexts(members, false, indent + 1), Closing(false, indent));
  }

  lemma {:induction false} MembersAreLeft(s: bytes, p: nat, members: Members, format: bool, indent: nat)
    requires At(s, p, MemberTexts(members, format, indent))
    ensures Leaves(s, p, p + |MemberTexts(members, format, indent)|, MemberTexts(members, false, indent))
    decreases members, 1
  {
    hide *;
    if members.NoMember? {
      NoMembersLeft(s, p, format, indent);
    } else {
      var r := p + |FirstMember(members, format, indent)|;
      MembersApart(members, format, indent);
      MembersApart(members, false, indent);
      AtSplit(s, p, FirstMember(members, format, indent), MemberTexts(members.next, format, indent));
      FirstMemberIsLeft(s, p, members, format, indent);
      MembersAreLeft(s, r, members.next, format, indent);
      LeavesThen(s, p, r, r + |MemberTexts(members.next, format, indent)|,
                 FirstMember(members, false, indent), MemberTexts(members.next, false, indent));
    }
  }

  lemma NoMembersLeft(s: bytes, p: nat, format: bool, indent: nat)
    requires At(s, p, MemberTexts(NoMember, format, indent))
    ensures Leaves(s, p, p + |MemberTexts(NoMember, format, indent)|, MemberTexts(NoMember, false, indent))
  {
    LeavesNothing(s, p);
  }

  lemma {:induction false} FirstMemberIsLeft(s: bytes, p: nat, members: Members, format: bool, indent: nat)
    requires members.Member? && At(s, p, FirstMember(members, format, indent))
    ensures Leaves(s, p, p + |FirstMember(members, format, indent)|, FirstMember(members, false, indent))
    decreases members, 0
  {
    hide At, Leaves, Key, LineEnd, Text;
    var key := Key(members.key, format, indent);
    var value := Text(members.value, format, indent);
    var end := LineEnd(members.next.Member?, format);
    var q, r := p + |key|, p + |key| + |value|;
    AtSplit3(s, p, key, value, end);
    KeyIsLeft(s, p, members.key, format, indent);
    ValueIsLeft(s, q, members.value, format, indent);
    LineEndIsLeft(s, r, members.next.Member?, format);
    LeavesThree(s, p, q, r, r + |end|,
                Key(members.key, false, indent), Text(members.value, false, indent), LineEnd(members.next.Member?,
                      false));
  }

  /** The two printers agree through the minifier, byte for byte. */
  lemma MinifiedPrintIsUnformatted(v: Json, format: bool)
    ensures MinifyFrom(Text(v, format, 0), 0) == Minified(Text(v, false, 0))
  {
    var s := Text(v, format, 0);
    AtIsSlice(s, 0, s);
    ValueIsLeft(s, 0, v, format, 0);
    assert Text(v, false, 0) + [] == Text(v, false, 0);
  }
}
