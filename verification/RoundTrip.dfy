/** The parser reads back what the printer wrote, formatted or not. */
module RoundTrip {
  import opened Bytes
  import opened JsonValue
  import opened StringCodec
  import opened Numbers
  import opened PrintText
  import opened ParseSpec
  import opened Widths

  /** The byte behind a number must not belong to it. */
  predicate Ends(s: bytes, end: nat) {
    end < |s| ==> !IsNumberChar(s[end])
  }

  lemma Dispatch(s: bytes, p: nat, d: nat)
    requires p < |s| && d <= NESTING_LIMIT
    ensures s[p] == LBRACKET ==> ParseValueAt(s, p, d) == ParseArrayAt(s, p, d)
    ensures s[p] == LBRACE ==> ParseValueAt(s, p, d) == ParseObjectAt(s, p, d)
  {}

  lemma StandingStringReadsBack(s: bytes, p: nat, t: bytes, d: nat)
    requires NulFree(t) && StringStands(s, p, t)
    ensures ParseStringAt(s, p, d) == Success(t, p + StringWidth(t))
  {
    var end := p + StringWidth(t) - 1;
    EscapedLength(t);
    ScanReadsBack(s, p + 1, t, end);
    DecodeReadsBack(s, p + 1, t, end);
    UpToNulOfCString(t, []);
  }

  /** parse_string undoes print_string_ptr and stops just past the closing quote. */
  lemma StringReadsBack(s: bytes, p: nat, t: bytes, d: nat)
    requires NulFree(t) && At(s, p, Quoted(t))
    ensures p < |s| && ParseStringAt(s, p, d) == Success(t, p + |Quoted(t)|)
  {
    QuotedStands(s, p, t);
    StandingStringReadsBack(s, p, t, d);
  }

  lemma StringValueReadsBack(s: bytes, p: nat, t: bytes, d: nat)
    requires NulFree(t) && StringStands(s, p, t) && d <= NESTING_LIMIT
    ensures ParseValueAt(s, p, d) == Success(Str(t), p + StringWidth(t))
  {
    StandingStringReadsBack(s, p, t, d);
  }

  lemma NumberValueReadsBack(s: bytes, p: nat, n: int, d: nat)
    requires INT_MIN <= n <= INT_MAX && At(s, p, Decimal(n)) && Ends(s, p + |Decimal(n)|)
    requires p < |s| && d <= NESTING_LIMIT
    ensures ParseValueAt(s, p, d) == Success(Number(n), p + |Decimal(n)|)
  {
    AtIndex(s, p, Decimal(n), 0);
    NumberReadsBack(s, p, n);
  }

  // ----- one step of the parser, given what it finds

  lemma {:induction false} SkipTo(s: bytes, o: nat, q: nat)
    requires o <= q < |s| && Blank(s, o, q) && s[q] > 32
    ensures SkipRun(s, o) == SkipWhitespace(s, o) == q
    decreases q - o
  {
    if o < q {
      SkipTo(s, o + 1, q);
    }
  }

  lemma EmptyArrayStep(s: bytes, p: nat, d: nat)
    requires Holds(s, p, LBRACKET) && d < NESTING_LIMIT && Holds(s, p + 1, RBRACKET)
    ensures ParseArrayAt(s, p, d) == Success(Arr(NoItem), p + 2)
  {
    SkipTo(s, p + 1, p + 1);
  }

  lemma ArrayStep(s: bytes, p: nat, d: nat, r: Outcome<Items>)
    requires Holds(s, p, LBRACKET) && d < NESTING_LIMIT && SkipWhitespace(s, p + 1) == p + 1 < |s|
    requires s[p + 1] != RBRACKET && ElementsAt(s, p, d + 1) == r
    ensures ParseArrayAt(s, p, d) == InArray(r)
  {}

  lemma LastElement(s: bytes, o: nat, d: nat, v: Json, q: nat)
    requires o < |s| && d <= NESTING_LIMIT && ElementAt(s, o, d) == Success(v, q) && Holds(s, q, RBRACKET)
    ensures ElementsAt(s, o, d) == Success(Item(v, NoItem), q + 1)
  {
    SkipTo(s, q, q);
  }

  lemma NextElement(s: bytes, o: nat, d: nat, v: Json, q: nat, rest: Outcome<Items>)
    requires o < |s| && d <= NESTING_LIMIT && ElementAt(s, o, d) == Success(v, q) && Holds(s, q, COMMA)
    requires ElementsAt(s, q, d) == rest
    ensures ElementsAt(s, o, d) == AfterItems(Item(v, NoItem), rest)
  {
    SkipTo(s, q, q);
  }

  lemma EmptyObjectStep(s: bytes, p: nat, d: nat, c: nat)
    requires Holds(s, p, LBRACE) && d < NESTING_LIMIT && p < c && SkipWhitespace(s, p + 1) == c && Holds(s, c, RBRACE)
    ensures ParseObjectAt(s, p, d) == Success(Obj(NoMember), c + 1)
  {}

  lemma ObjectStep(s: bytes, p: nat, d: nat, o: nat, r: Outcome<Members>)
    requires Holds(s, p, LBRACE) && d < NESTING_LIMIT && p <= o && SkipWhitespace(s, p + 1) == o + 1 < |s|
    requires s[o + 1] != RBRACE && MembersAt(s, o, d + 1) == r
    ensures ParseObjectAt(s, p, d) == InObject(r)
  {}

  lemma KeyStep(s: bytes, o: nat, d: nat, k: nat, key: bytes, c: nat, v: nat)
    requires o + 1 < |s| && k < |s| && c < v < |s|
    requires SkipWhitespace(s, o + 1) == k && ParseStringAt(s, k, d) == Success(key, c)
    requires s[c] == COLON && Blank(s, c + 1, v) && s[v] > 32
    ensures KeyAt(s, o, d) == Success(key, v)
  {
    SkipTo(s, c, c);
    SkipTo(s, c + 1, v);
  }

  lemma MemberStep(s: bytes, o: nat, d: nat, key: bytes, p: nat, v: Json, q: nat)
    requires o < |s| && d <= NESTING_LIMIT && p <= |s|
    requires KeyAt(s, o, d) == Success(key, p) && ParseValueAt(s, p, d) == Success(v, q)
    ensures MemberAt(s, o, d) == Success(Member(key, v, NoMember), q)
  {}

  lemma LastMember(s: bytes, o: nat, d: nat, m: Members, q: nat, c: nat)
    requires o < |s| && d <= NESTING_LIMIT && q <= c
    requires MemberAt(s, o, d) == Success(m, q) && SkipWhitespace(s, q) == c && Holds(s, c, RBRACE)
    ensures MembersAt(s, o, d) == Success(m, c + 1)
  {}

  lemma NextMember(s: bytes, o: nat, d: nat, m: Members, q: nat, rest: Outcome<Members>)
    requires o < |s| && d <= NESTING_LIMIT && MemberAt(s, o, d) == Success(m, q)
    requires Holds(s, q, COMMA) && MembersAt(s, q, d) == rest
    ensures MembersAt(s, o, d) == AfterMembers(m, rest)
  {
    SkipTo(s, q, q);
  }

  // ----- what the parser meets

  /** Bytes the parser stops at and takes for the start of a value. */
  predicate BrightAt(s: bytes, p: nat) {
    p < |s| && 32 < s[p] < 0x80 && s[p] != RBRACKET && s[p] != RBRACE
  }

  lemma StandingIsBright(s: bytes, p: nat, v: Json, format: bool, indent: nat)
    requires Stands(s, p, v, format, indent)
    ensures BrightAt(s, p)
  {
    match v
    case Null =>
    case Bool(_) =>
    case Number(n) => AtIndex(s, p, Decimal(n), 0);
    case Str(_) =>
    case Arr(_) =>
    case Obj(_) =>
  }

  lemma FirstElementIsBright(s: bytes, p: nat, items: Items, format: bool, indent: nat)
    requires items.Item? && FirstElementStands(s, p, items, format, indent)
    ensures BrightAt(s, p)
  {
    StandingIsBright(s, p, items.value, format, indent);
  }

  lemma FirstKeyStands(s: bytes, p: nat, members: Members, format: bool, indent: nat)
    requires members.Member? && FirstMemberStands(s, p, members, format, indent)
    ensures Blank(s, p, p + Tabbed(format, indent)) && Holds(s, p + Tabbed(format, indent), QUOTE)
  {}

  /** After white space from a up to p the parser reaches the first key. */
  lemma KeyIsReached(s: bytes, a: nat, p: nat, members: Members, format: bool, indent: nat)
    requires members.Member? && FirstMemberStands(s, p, members, format, indent) && a <= p && Blank(s, a, p)
    ensures var k := p + Tabbed(format, indent); Holds(s, k, QUOTE) && SkipWhitespace(s, a) == k
  {
    FirstKeyStands(s, p, members, format, indent);
    BlankTwice(s, a, p, p + Tabbed(format, indent));
    SkipTo(s, a, p + Tabbed(format, indent));
  }

  // ----- reading back

  lemma {:induction false} StandingReadsBack(v: Json, format: bool, indent: nat, s: bytes, p: nat, d: nat)
    requires d <= NESTING_LIMIT && Representable(v) && NestsWithin(v, NESTING_LIMIT - d)
    requires BrightAt(s, p) && Stands(s, p, v, format, indent) && Ends(s, p + Width(v, format, indent))
    ensures ParseValueAt(s, p, d) == Success(v, p + Width(v, format, indent))
    decreases v, 4
  {
    match v
    case Null =>
    case Bool(_) =>
    case Number(n) => NumberValueReadsBack(s, p, n, d);
    case Str(t) => StringValueReadsBack(s, p, t, d);
    case Arr(items) =>
      ArrayReadsBack(items, format, indent, s, p, d);
      Dispatch(s, p, d);
    case Obj(members) =>
      ObjectReadsBack(members, format, indent, s, p, d);
      Dispatch(s, p, d);
  }

  lemma {:induction false} ArrayReadsBack(items: Items, format: bool, indent: nat, s: bytes, p: nat, d: nat)
    requires d < NESTING_LIMIT && RepresentableItems(items) && ItemsNestWithin(items, NESTING_LIMIT - d - 1)
    requires ArrayStands(s, p, items, format, indent)
    ensures Holds(s, p, LBRACKET)
    ensures ParseArrayAt(s, p, d) == Success(Arr(items), p + 1 + ElementsWidth(items, format, indent + 1) + 1)
    decreases items, 3
  {
    hide ParseArrayAt, ElementsStand, ItemsNestWithin, RepresentableItems;
    var e := p + 1 + ElementsWidth(items, format, indent + 1);
    if items.NoItem? {
      EmptyArrayStep(s, p, d);
    } else {
      FilledArrayReadsBack(items, format, indent + 1, s, p, e, d);
    }
  }

  lemma {:induction false} FilledArrayReadsBack(items: Items, format: bool, indent: nat, s: bytes, p: nat, e: nat,
            d: nat)
    requires items.Item? && d < NESTING_LIMIT
    requires RepresentableItems(items) && ItemsNestWithin(items, NESTING_LIMIT - d - 1)
    requires Holds(s, p, LBRACKET) && ElementsStand(s, p + 1, items, format, indent)
    requires e == p + 1 + ElementsWidth(items, format, indent) && Holds(s, e, RBRACKET)
    ensures ParseArrayAt(s, p, d) == InArray(Success(items, e + 1))
    decreases items, 3, 0
  {
    hide ElementsAt, ParseArrayAt, RepresentableItems, ItemsNestWithin, FirstElementStands, FirstElementWidth;
    FirstElementIsBright(s, p + 1, items, format, indent);
    SkipTo(s, p + 1, p + 1);
    ElementsReadBack(items, format, indent, s, p, p + 1, d + 1);
    ArrayStep(s, p, d, Success(items, e + 1));
  }

  /** The loop of parse_array over the elements, from a bracket or comma at o. */
  lemma {:induction false} ElementsReadBack(items: Items, format: bool, indent: nat, s: bytes, o: nat, p: nat, d: nat)
    requires items.Item? && d <= NESTING_LIMIT && o < |s| && SkipWhitespace(s, o + 1) == p
    requires RepresentableItems(items) && ItemsNestWithin(items, NESTING_LIMIT - d)
    requires ElementsStand(s, p, items, format, indent)
    requires Holds(s, p + ElementsWidth(items, format, indent), RBRACKET)
    ensures ElementsAt(s, o, d) == Success(items, p + ElementsWidth(items, format, indent) + 1)
    decreases items, 2
  {
    hide *;
    var r := p + FirstElementWidth(items, format, indent);
    ElementsSplit(s, p, items, format, indent);
    ItemsAllowed(items, NESTING_LIMIT - d);
    if items.next.Item? {
      NextElementIsBright(s, r, items.next, format, indent);
      var q := ElementReadsBack(items, format, indent, s, o, p, d);
      ElementsReadBack(items.next, format, indent, s, q, r, d);
      NextElementJoins(s, o, d, items, q, r + ElementsWidth(items.next, format, indent) + 1);
    } else {
      var q := ElementReadsBack(items, format, indent, s, o, p, d);
      LastElement(s, o, d, items.value, q);
    }
  }

  lemma ElementsSplit(s: bytes, p: nat, items: Items, format: bool, indent: nat)
    requires items.Item? && ElementsStand(s, p, items, format, indent)
    ensures FirstElementStands(s, p, items, format, indent)
    ensures ElementsStand(s, p + FirstElementWidth(items, format, indent), items.next, format, indent)
    ensures ElementsWidth(items, format, indent) ==
            FirstElementWidth(items, format, indent) + ElementsWidth(items.next, format, indent)
    ensures items.next.NoItem? ==> ElementsWidth(items.next, format, indent) == 0
  {}

  lemma ItemsAllowed(items: Items, n: int)
    requires items.Item? && RepresentableItems(items) && ItemsNestWithin(items, n)
    ensures Representable(items.value) && NestsWithin(items.value, n)
    ensures RepresentableItems(items.next) && ItemsNestWithin(items.next, n)
  {}

  lemma NextElementIsBright(s: bytes, p: nat, items: Items, format: bool, indent: nat)
    requires items.Item? && ElementsStand(s, p, items, format, indent)
    ensures BrightAt(s, p)
  {
    FirstElementIsBright(s, p, items, format, indent);
  }

  lemma NextElementJoins(s: bytes, o: nat, d: nat, items: Items, q: nat, e: nat)
    requires items.Item? && o < |s| && d <= NESTING_LIMIT
    requires ElementAt(s, o, d) == Success(items.value, q)
    requires Holds(s, q, COMMA) && q < |s| && ElementsAt(s, q, d) == Success(items.next, e)
    ensures ElementsAt(s, o, d) == Success(items, e)
  {
    NextElement(s, o, d, items.value, q, Success(items.next, e));
    OneThen(items.value, items.next);
  }

  /** The first element is read up to q, where the bracket or, before more, a comma stands. */
  lemma {:induction false} ElementReadsBack(items: Items, format: bool, indent: nat, s: bytes, o: nat, p: nat, d: nat)
    returns (q: nat)
    requires items.Item? && d <= NESTING_LIMIT && o < |s| && SkipWhitespace(s, o + 1) == p
    requires Representable(items.value) && NestsWithin(items.value, NESTING_LIMIT - d)
    requires FirstElementStands(s, p, items, format, indent)
    requires var r := p + FirstElementWidth(items, format, indent);
             if items.next.Item? then BrightAt(s, r) else Holds(s, r, RBRACKET)
    ensures ElementAt(s, o, d) == Success(items.value, q)
    ensures var r := p + FirstElementWidth(items, format, indent);
            if items.next.Item? then Holds(s, q, COMMA) && SkipWhitespace(s, q + 1) == r else q == r
    decreases items, 1
  {
    hide ParseValueAt, Stands, Width, Representable, NestsWithin;
    q := p + Width(items.value, format, indent);
    if items.next.Item? {
      SkipTo(s, q + 1, q + 1 + Pad(format));
    }
    StandingIsBright(s, p, items.value, format, indent);
    StandingReadsBack(items.value, format, indent, s, p, d);
  }

  lemma {:induction false} ObjectReadsBack(members: Members, format: bool, indent: nat, s: bytes, p: nat, d: nat)
    requires d < NESTING_LIMIT && RepresentableMembers(members) && MembersNestWithin(members, NESTING_LIMIT - d - 1)
    requires ObjectStands(s, p, members, format, indent)
    ensures Holds(s, p, LBRACE)
    ensures ParseObjectAt(s, p, d) == Success(Obj(members), p + Width(Obj(members), format, indent))
    decreases members, 3
  {
    hide *;
    var start := p + 1 + Pad(format);
    var end := start + MembersWidth(members, format, indent + 1);
    ObjectSplit(s, p, members, format, indent);
    if members.NoMember? {
      EmptyObjectReadsBack(format, indent, s, p, start, d);
    } else {
      FilledObjectReadsBack(members, format, indent, s, p, start, end, d);
      InObjectOf(members, end + Tabbed(format, indent) + 1);
    }
  }

  lemma InObjectOf(members: Members, e: nat)
    ensures InObject(Success(members, e)) == Success(Obj(members), e)
  {}

  lemma ObjectSplit(s: bytes, p: nat, members: Members, format: bool, indent: nat)
    requires ObjectStands(s, p, members, format, indent)
    ensures var start := p + 1 + Pad(format);
            var end := start + MembersWidth(members, format, indent + 1);
            && p < start <= |s| && Holds(s, p, LBRACE) && Blank(s, p + 1, start)
            && MembersStand(s, start, members, format, indent + 1)
            && ClosingStands(s, end, format, indent)
            && (members.NoMember? ==> end == start)
            && p + Width(Obj(members), format, indent) == end + Tabbed(format, indent) + 1
  {
    hide At, MembersStand, ClosingStands;
  }

  lemma EmptyObjectReadsBack(format: bool, indent: nat, s: bytes, p: nat, e: nat, d: nat)
    requires d < NESTING_LIMIT && Holds(s, p, LBRACE) && e == p + 1 + Pad(format) && Blank(s, p + 1, e)
    requires ClosingStands(s, e, format, indent)
    ensures ParseObjectAt(s, p, d) == Success(Obj(NoMember), e + Tabbed(format, indent) + 1)
  {
    var c := e + Tabbed(format, indent);
    BlankTwice(s, p + 1, e, c);
    SkipTo(s, p + 1, c);
    EmptyObjectStep(s, p, d, c);
  }

  lemma {:induction false} FilledObjectReadsBack(members: Members, format: bool, indent: nat, s: bytes, p: nat,
            start: nat, e: nat, d: nat)
    requires members.Member? && d < NESTING_LIMIT
    requires RepresentableMembers(members) && MembersNestWithin(members, NESTING_LIMIT - d - 1)
    requires Holds(s, p, LBRACE) && p < start <= |s| && Blank(s, p + 1, start)
    requires MembersStand(s, start, members, format, indent + 1)
    requires e == start + MembersWidth(members, format, indent + 1) && ClosingStands(s, e, format, indent)
    ensures ParseObjectAt(s, p, d) == InObject(Success(members, e + Tabbed(format, indent) + 1))
    decreases members, 3, 0
  {
    hide *;
    var o := BraceToKey(members, format, indent + 1, s, p, start);
    MembersReadBack(members, format, indent + 1, s, o, start, d + 1, indent);
    ObjectStep(s, p, d, o, Success(members, e + Tabbed(format, indent) + 1));
  }

  /** parse_object stops at the key and takes one step back: its loop starts at o. */
  lemma BraceToKey(members: Members, format: bool, indent: nat, s: bytes, p: nat, start: nat) returns (o: nat)
    requires members.Member? && p < start <= |s| && Blank(s, p + 1, start) && MembersStand(s, start, members,
          format, indent)
    ensures o + 1 == start + Tabbed(format, indent) < |s| && p <= o
    ensures SkipWhitespace(s, p + 1) == SkipWhitespace(s, o + 1) == o + 1 && s[o + 1] == QUOTE != RBRACE
  {
    KeyIsReached(s, p + 1, start, members, format, indent);
    o := start + Tabbed(format, indent) - 1;
    SkipTo(s, o + 1, o + 1);
  }

  /** The loop of parse_object over the members, from a byte o before the key. */
  lemma {:induction false} MembersReadBack(members: Members, format: bool, indent: nat, s: bytes, o: nat, p: nat,
            d: nat, outer: nat)
    requires members.Member? && d <= NESTING_LIMIT && o + 1 < |s|
    requires SkipWhitespace(s, o + 1) == p + Tabbed(format, indent)
    requires RepresentableMembers(members) && MembersNestWithin(members, NESTING_LIMIT - d)
    requires MembersStand(s, p, members, format, indent)
    requires ClosingStands(s, p + MembersWidth(members, format, indent), format, outer)
    ensures MembersAt(s, o, d) ==
            Success(members, p + MembersWidth(members, format, indent) + Tabbed(format, outer) + 1)
    decreases members, 2
  {
    hide *;
    var r := p + FirstMemberWidth(members, format, indent);
    MembersSplit(s, p, members, format, indent);
    MembersAllowed(members, NESTING_LIMIT - d);
    if members.next.Member? {
      NextKeyStands(s, r, members.next, format, indent);
      var q := MemberReadsBack(members, format, indent, s, o, p, d, r + Tabbed(format, indent));
      MembersReadBack(members.next, format, indent, s, q, r, d, outer);
      NextMemberJoins(s, o, d, members, q, r + MembersWidth(members.next, format, indent) + Tabbed(format, outer) + 1);
    } else {
      ClosingApart(s, r, format, outer);
      var q := MemberReadsBack(members, format, indent, s, o, p, d, r + Tabbed(format, outer));
      LastMember(s, o, d, Member(members.key, members.value, NoMember), q, r + Tabbed(format, outer));
    }
  }

  lemma MembersSplit(s: bytes, p: nat, members: Members, format: bool, indent: nat)
    requires members.Member? && MembersStand(s, p, members, format, indent)
    ensures FirstMemberStands(s, p, members, format, indent)
    ensures MembersStand(s, p + FirstMemberWidth(members, format, indent), members.next, format, indent)
    ensures MembersWidth(members, format, indent) ==
            FirstMemberWidth(members, format, indent) + MembersWidth(members.next, format, indent)
    ensures members.next.NoMember? ==> MembersWidth(members.next, format, indent) == 0
  {}

  lemma MembersAllowed(members: Members, n: int)
    requires members.Member? && RepresentableMembers(members) && MembersNestWithin(members, n)
    ensures NulFree(members.key) && Representable(members.value) && NestsWithin(members.value, n)
    ensures RepresentableMembers(members.next) && MembersNestWithin(members.next, n)
  {}

  lemma NextKeyStands(s: bytes, p: nat, members: Members, format: bool, indent: nat)
    requires members.Member? && MembersStand(s, p, members, format, indent)
    ensures Blank(s, p, p + Tabbed(format, indent)) && Holds(s, p + Tabbed(format, indent), QUOTE)
    ensures p <= p + Tabbed(format, indent) < |s|
  {
    FirstKeyStands(s, p, members, format, indent);
  }

  lemma ClosingApart(s: bytes, p: nat, format: bool, indent: nat)
    requires ClosingStands(s, p, format, indent)
    ensures Blank(s, p, p + Tabbed(format, indent)) && Holds(s, p + Tabbed(format, indent), RBRACE)
  {}

  lemma NextMemberJoins(s: bytes, o: nat, d: nat, members: Members, q: nat, e: nat)
    requires members.Member? && o < |s| && d <= NESTING_LIMIT
    requires MemberAt(s, o, d) == Success(Member(members.key, members.value, NoMember), q)
    requires Holds(s, q, COMMA) && q < |s| && MembersAt(s, q, d) == Success(members.next, e)
    ensures MembersAt(s, o, d) == Success(members, e)
  {
    NextMember(s, o, d, Member(members.key, members.value, NoMember), q, Success(members.next, e));
    OneMemberThen(members.key, members.value, members.next);
  }

  /** The first member is read up to q; from there the parser reaches the next key or the brace, at c. */
  lemma {:induction false} MemberReadsBack(members: Members, format: bool, indent: nat, s: bytes, o: nat, p: nat,
            d: nat, c: nat)
    returns (q: nat)
    requires members.Member? && d <= NESTING_LIMIT && o + 1 < |s|
    requires SkipWhitespace(s, o + 1) == p + Tabbed(format, indent)
    requires NulFree(members.key) && Representable(members.value) && NestsWithin(members.value, NESTING_LIMIT - d)
    requires FirstMemberStands(s, p, members, format, indent)
    requires var r := p + FirstMemberWidth(members, format, indent);
             r <= c && Blank(s, r, c) && (if members.next.Member? then Holds(s, c, QUOTE) else Holds(s, c, RBRACE))
    ensures MemberAt(s, o, d) == Success(Member(members.key, members.value, NoMember), q)
    ensures if members.next.Member? then Holds(s, q, COMMA) && q + 1 < |s| && SkipWhitespace(s, q + 1) == c
            else q <= c && SkipWhitespace(s, q) == c
    decreases members, 1
  {
    hide *;
    var v := p + KeyWidth(members.key, format, indent);
    q := v + Width(members.value, format, indent);
    FirstMemberApart(s, p, members, format, indent);
    LineEndIsPassed(s, q, members.next.Member?, format, c);
    StandingIsBright(s, v, members.value, format, indent);
    KeyReadsBack(members.key, format, indent, s, o, p, v, d);
    StandingReadsBack(members.value, format, indent, s, v, d);
    MemberStep(s, o, d, members.key, v, members.value, q);
  }

  lemma FirstMemberApart(s: bytes, p: nat, members: Members, format: bool, indent: nat)
    requires members.Member? && FirstMemberStands(s, p, members, format, indent)
    ensures var v := p + KeyWidth(members.key, format, indent);
            var q := v + Width(members.value, format, indent);
            && KeyStands(s, p, members.key, format, indent)
            && Stands(s, v, members.value, format, indent)
            && LineEndStands(s, q, members.next.Member?, format)
            && p + FirstMemberWidth(members, format, indent) == q + LineEndWidth(members.next.Member?, format)
            && v <= |s|
  {
    StandingIsBright(s, p + KeyWidth(members.key, format, indent), members.value, format, indent);
  }

  lemma LineEndIsPassed(s: bytes, q: nat, more: bool, format: bool, c: nat)
    requires LineEndStands(s, q, more, format) && q + LineEndWidth(more, format) <= c
    requires Blank(s, q + LineEndWidth(more, format), c) && (if more then Holds(s, c, QUOTE) else Holds(s, c, RBRACE))
    ensures Ends(s, q)
    ensures if more then Holds(s, q, COMMA) && q + 1 < |s| && SkipWhitespace(s, q + 1) == c
            else q <= c && SkipWhitespace(s, q) == c
  {
    var a := if more then q + 1 else q;
    BlankTwice(s, a, q + LineEndWidth(more, format), c);
    SkipTo(s, a, c);
  }

  /** The key and its colon are read, up to the value at v. */
  lemma KeyReadsBack(key: bytes, format: bool, indent: nat, s: bytes, o: nat, p: nat, v: nat, d: nat)
    requires NulFree(key) && o + 1 < |s| && KeyStands(s, p, key, format, indent)
    requires SkipWhitespace(s, o + 1) == p + Tabbed(format, indent)
    requires v == p + KeyWidth(key, format, indent) && BrightAt(s, v)
    ensures KeyAt(s, o, d) == Success(key, v)
  {
    var k := p + Tabbed(format, indent);
    StandingStringReadsBack(s, k, key, d);
    KeyStep(s, o, d, k, key, k + StringWidth(key), v);
  }

  // ----- the printed text

  /** A value printed anywhere in a buffer is read back from there and nothing more is consumed. */
  lemma ValueReadsBack(v: Json, format: bool, indent: nat, s: bytes, p: nat, d: nat)
    requires d <= NESTING_LIMIT && Representable(v) && NestsWithin(v, NESTING_LIMIT - d)
    requires At(s, p, Text(v, format, indent)) && Ends(s, p + |Text(v, format, indent)|)
    ensures ParseValueAt(s, p, d) == Success(v, p + |Text(v, format, indent)|)
  {
    TextStands(s, p, v, format, indent);
    WidthIsLength(v, format, indent);
    StandingIsBright(s, p, v, format, indent);
    StandingReadsBack(v, format, indent, s, p, d);
  }

  /** cJSON_Parse of a printed text gives the tree back and stops at the terminator. */
  lemma PrintedTextParses(v: Json, format: bool, requireTerminated: bool)
    requires Representable(v) && NestsWithin(v, NESTING_LIMIT)
    ensures ParseText(Text(v, format, 0) + [NUL], requireTerminated) == Parsed(v, |Text(v, format, 0)|)
  {
    hide Text, Width, Stands, At, ParseValueAt;
    var text := Text(v, format, 0);
    var s := text + [NUL];
    AtMiddle([], text, [NUL]);
    assert [] + text + [NUL] == s && s[|text|] == NUL;
    TextStands(s, 0, v, format, 0);
    StandingIsBright(s, 0, v, format, 0);
    SkipTo(s, 0, 0);
    ValueReadsBack(v, format, 0, s, 0, 0);
    assert SkipRun(s, |s|) == |s|;
    assert SkipRun(s, |text|) == |s|;
  }
}
