/**
 Where the pieces of a printed text stand in a buffer: the same text as in PrintText, said with
 positions and widths, which is the form in which the parser meets it.  A helper of RoundTrip.
 */
module Widths {
  import opened Bytes
  import opened JsonValue
  import opened StringCodec
  import opened Numbers
  import opened PrintText

  /** White space from a up to b. */
  predicate Blank(s: bytes, a: nat, b: nat)
    decreases b - a
  {
    b <= |s| && (a < b ==> s[a] <= 32 && Blank(s, a + 1, b))
  }

  lemma {:induction false} BlankTwice(s: bytes, a: nat, b: nat, c: nat)
    requires a <= b <= c && Blank(s, a, b) && Blank(s, b, c)
    ensures Blank(s, a, c)
    decreases b - a
  {
    if a < b {
      BlankTwice(s, a + 1, b, c);
    }
  }

  predicate Holds(s: bytes, p: nat, c: byte) {
    p < |s| && s[p] == c
  }

  function Pad(format: bool): nat {
    if format then 1 else 0
  }

  function Tabbed(format: bool, indent: nat): nat {
    if format then indent else 0
  }

  function StringWidth(t: bytes): nat {
    |t| + EscapeCharacters(t) + 2
  }

  predicate StringStands(s: bytes, p: nat, t: bytes) {
    Holds(s, p, QUOTE) && At(s, p + 1, Escaped(t)) && Holds(s, p + StringWidth(t) - 1, QUOTE)
  }

  lemma QuotedStands(s: bytes, p: nat, t: bytes)
    requires At(s, p, Quoted(t))
    ensures |Quoted(t)| == StringWidth(t) && StringStands(s, p, t)
  {
    EscapedLength(t);
    AtSplit3(s, p, [QUOTE], Escaped(t), [QUOTE]);
  }

  function Width(v: Json, format: bool, indent: nat): nat
    decreases v, 2
  {
    match v
    case Null => 4
    case Bool(b) => if b then 4 else 5
    case Number(n) => |Decimal(n)|
    case Str(t) => StringWidth(t)
    case Arr(items) => 1 + ElementsWidth(items, format, indent + 1) + 1
    case Obj(members) =>
      1 + Pad(format) + MembersWidth(members, format, indent + 1) + Tabbed(format, indent) + 1
  }

  function SeparatorWidth(more: bool, format: bool): nat {
    if more then 1 + Pad(format) else 0
  }

  function ElementsWidth(items: Items, format: bool, indent: nat): nat
    decreases items, 1
  {
    if items.Item? then FirstElementWidth(items, format, indent) + ElementsWidth(items.next, format, indent) else 0
  }

  function FirstElementWidth(items: Items, format: bool, indent: nat): nat
    requires items.Item?
    decreases items, 0
  {
    Width(items.value, format, indent) + SeparatorWidth(items.next.Item?, format)
  }

  function KeyWidth(key: bytes, format: bool, indent: nat): nat {
    Tabbed(format, indent) + StringWidth(key) + 1 + Pad(format)
  }

  function LineEndWidth(more: bool, format: bool): nat {
    (if more then 1 else 0) + Pad(format)
  }

  function MembersWidth(members: Members, format: bool, indent: nat): nat
    decreases members, 1
  {
    if members.Member? then
      FirstMemberWidth(members, format, indent) + MembersWidth(members.next, format, indent)
    else 0
  }

  function FirstMemberWidth(members: Members, format: bool, indent: nat): nat
    requires members.Member?
    decreases members, 0
  {
    KeyWidth(members.key, format, indent) + Width(members.value, format, indent)
    + LineEndWidth(members.next.Member?, format)
  }

  predicate Stands(s: bytes, p: nat, v: Json, format: bool, indent: nat)
    decreases v, 3
  {
    match v
    case Null => NullAt(s, p)
    case Bool(b) => if b then TrueAt(s, p) else FalseAt(s, p)
    case Number(n) => At(s, p, Decimal(n))
    case Str(t) => StringStands(s, p, t)
    case Arr(items) => ArrayStands(s, p, items, format, indent)
    case Obj(members) => ObjectStands(s, p, members, format, indent)
  }

  predicate ArrayStands(s: bytes, p: nat, items: Items, format: bool, indent: nat)
    decreases items, 2
  {
    && Holds(s, p, LBRACKET)
    && ElementsStand(s, p + 1, items, format, indent + 1)
    && Holds(s, p + 1 + ElementsWidth(items, format, indent + 1), RBRACKET)
  }

  predicate ObjectStands(s: bytes, p: nat, members: Members, format: bool, indent: nat)
    decreases members, 2
  {
    var start := p + 1 + Pad(format);
    && Holds(s, p, LBRACE) && Blank(s, p + 1, start)
    && MembersStand(s, start, members, format, indent + 1)
    && ClosingStands(s, start + MembersWidth(members, format, indent + 1), format, indent)
  }

  predicate ClosingStands(s: bytes, p: nat, format: bool, indent: nat) {
    Blank(s, p, p + Tabbed(format, indent)) && Holds(s, p + Tabbed(format, indent), RBRACE)
  }

  predicate SeparatorStands(s: bytes, q: nat, more: bool, format: bool) {
    more ==> Holds(s, q, COMMA) && Blank(s, q + 1, q + 1 + Pad(format))
  }

  predicate ElementsStand(s: bytes, p: nat, items: Items, format: bool, indent: nat)
    decreases items, 1
  {
    items.Item? ==>
      && FirstElementStands(s, p, items, format, indent)
      && ElementsStand(s, p + FirstElementWidth(items, format, indent), items.next, format, indent)
  }

  predicate FirstElementStands(s: bytes, p: nat, items: Items, format: bool, indent: nat)
    requires items.Item?
    decreases items, 0
  {
    && Stands(s, p, items.value, format, indent)
    && SeparatorStands(s, p + Width(items.value, format, indent), items.next.Item?, format)
  }

  predicate KeyStands(s: bytes, p: nat, key: bytes, format: bool, indent: nat) {
    var k := p + Tabbed(format, indent);
    var c := k + StringWidth(key);
    && Blank(s, p, k) && StringStands(s, k, key)
    && Holds(s, c, COLON) && Blank(s, c + 1, c + 1 + Pad(format))
  }

  predicate LineEndStands(s: bytes, q: nat, more: bool, format: bool) {
    if more then Holds(s, q, COMMA) && Blank(s, q + 1, q + 1 + Pad(format)) else Blank(s, q, q + Pad(format))
  }

  predicate MembersStand(s: bytes, p: nat, members: Members, format: bool, indent: nat)
    decreases members, 1
  {
    members.Member? ==>
      && FirstMemberStands(s, p, members, format, indent)
      && MembersStand(s, p + FirstMemberWidth(members, format, indent), members.next, format, indent)
  }

  predicate FirstMemberStands(s: bytes, p: nat, members: Members, format: bool, indent: nat)
    requires members.Member?
    decreases members, 0
  {
    var v := p + KeyWidth(members.key, format, indent);
    && KeyStands(s, p, members.key, format, indent)
    && Stands(s, v, members.value, format, indent)
    && LineEndStands(s, v + Width(members.value, format, indent), members.next.Member?, format)
  }

  // ----- the widths are the lengths

  lemma {:induction false} WidthIsLength(v: Json, format: bool, indent: nat)
    ensures Width(v, format, indent) == |Text(v, format, indent)|
    decreases v, 2
  {
    match v
    case Null =>
    case Bool(_) =>
    case Number(_) =>
    case Str(t) => EscapedLength(t);
    case Arr(items) => ElementsWidthIsLength(items, format, indent + 1);
    case Obj(members) => MembersWidthIsLength(members, format, indent + 1);
  }

  lemma {:induction false} ElementsWidthIsLength(items: Items, format: bool, indent: nat)
    ensures ElementsWidth(items, format, indent) == |Elements(items, format, indent)|
    decreases items, 1
  {
    if items.Item? {
      FirstElementWidthIsLength(items, format, indent);
      ElementsWidthIsLength(items.next, format, indent);
    }
  }

  lemma {:induction false} FirstElementWidthIsLength(items: Items, format: bool, indent: nat)
    requires items.Item?
    ensures FirstElementWidth(items, format, indent) == |FirstElement(items, format, indent)|
    decreases items, 0
  {
    WidthIsLength(items.value, format, indent);
  }

  lemma {:induction false} MembersWidthIsLength(members: Members, format: bool, indent: nat)
    ensures MembersWidth(members, format, indent) == |MemberTexts(members, format, indent)|
    decreases members, 1
  {
    if members.Member? {
      FirstMemberWidthIsLength(members, format, indent);
      MembersWidthIsLength(members.next, format, indent);
    }
  }

  lemma {:induction false} FirstMemberWidthIsLength(members: Members, format: bool, indent: nat)
    requires members.Member?
    ensures FirstMemberWidth(members, format, indent) == |FirstMember(members, format, indent)|
    decreases members, 0
  {
    EscapedLength(members.key);
    WidthIsLength(members.value, format, indent);
  }

  // ----- a printed text stands as described

  lemma {:induction false} BlankAt(s: bytes, p: nat, t: bytes)
    requires At(s, p, t) && forall i :: 0 <= i < |t| ==> t[i] <= 32
    ensures Blank(s, p, p + |t|)
    decreases |t|
  {
    if t != [] {
      BlankAt(s, p + 1, t[1..]);
    }
  }

  lemma {:induction false} TextStands(s: bytes, p: nat, v: Json, format: bool, indent: nat)
    requires At(s, p, Text(v, format, indent))
    ensures Stands(s, p, v, format, indent)
    decreases v, 3
  {
    match v
    case Null => LiteralsStand(s, p);
    case Bool(_) => LiteralsStand(s, p);
    case Number(_) =>
    case Str(t) => QuotedStands(s, p, t);
    case Arr(items) => ArrayTextStands(s, p, items, format, indent);
    case Obj(members) => ObjectTextStands(s, p, members, format, indent);
  }

  lemma {:induction false} ArrayTextStands(s: bytes, p: nat, items: Items, format: bool, indent: nat)
    requires At(s, p, [LBRACKET] + Elements(items, format, indent + 1) + [RBRACKET])
    ensures ArrayStands(s, p, items, format, indent)
    decreases items, 2
  {
    AtSplit3(s, p, [LBRACKET], Elements(items, format, indent + 1), [RBRACKET]);
    ElementsWidthIsLength(items, format, indent + 1);
    ElementTextsStand(s, p + 1, items, format, indent + 1);
  }

  lemma {:induction false} ObjectTextStands(s: bytes, p: nat, members: Members, format: bool, indent: nat)
    requires At(s, p, Opening(format) + MemberTexts(members, format, indent + 1) + Closing(format, indent))
    ensures ObjectStands(s, p, members, format, indent)
    decreases members, 2
  {
    hide At, Opening, Closing, Blank, MembersStand, ClosingStands;
    AtSplit3(s, p, Opening(format), MemberTexts(members, format, indent + 1), Closing(format, indent));
    MembersWidthIsLength(members, format, indent + 1);
    OpeningTextStands(s, p, format);
    MemberTextsStand(s, p + |Opening(format)|, members, format, indent + 1);
    ClosingTextStands(s, p + |Opening(format)| + |MemberTexts(members, format, indent + 1)|, format, indent);
  }

  lemma OpeningTextStands(s: bytes, p: nat, format: bool)
    requires At(s, p, Opening(format))
    ensures |Opening(format)| == 1 + Pad(format)
    ensures Holds(s, p, LBRACE) && Blank(s, p + 1, p + 1 + Pad(format))
  {
    AtSplit(s, p, [LBRACE], Only(format, [NEWLINE]));
    BlankAt(s, p + 1, Only(format, [NEWLINE]));
  }

  lemma ClosingTextStands(s: bytes, p: nat, format: bool, indent: nat)
    requires At(s, p, Closing(format, indent))
    ensures ClosingStands(s, p, format, indent)
  {
    var tabs := Only(format, Tabs(indent));
    AtSplit(s, p, tabs, [RBRACE]);
    BlankAt(s, p, tabs);
  }

  lemma SeparatorTextStands(s: bytes, q: nat, more: bool, format: bool)
    requires At(s, q, Separator(more, format))
    ensures |Separator(more, format)| == SeparatorWidth(more, format) && SeparatorStands(s, q, more, format)
  {
    if more {
      AtSplit(s, q, [COMMA], Only(format, [SPACE]));
      BlankAt(s, q + 1, Only(format, [SPACE]));
    }
  }

  lemma {:induction false} ElementTextsStand(s: bytes, p: nat, items: Items, format: bool, indent: nat)
    requires At(s, p, Elements(items, format, indent))
    ensures ElementsStand(s, p, items, format, indent)
    decreases items, 1
  {
    hide *;
    if items.NoItem? {
      NoElementsStand(s, p, format, indent);
    } else {
      ElementsApart(items, format, indent);
      AtSplit(s, p, FirstElement(items, format, indent), Elements(items.next, format, indent));
      FirstElementWidthIsLength(items, format, indent);
      FirstElementTextStands(s, p, items, format, indent);
      ElementTextsStand(s, p + FirstElementWidth(items, format, indent), items.next, format, indent);
      ElementsStandTogether(s, p, items, format, indent);
    }
  }

  lemma NoElementsStand(s: bytes, p: nat, format: bool, indent: nat)
    ensures ElementsStand(s, p, NoItem, format, indent)
  {}

  lemma ElementsStandTogether(s: bytes, p: nat, items: Items, format: bool, indent: nat)
    requires items.Item? && FirstElementStands(s, p, items, format, indent)
    requires ElementsStand(s, p + FirstElementWidth(items, format, indent), items.next, format, indent)
    ensures ElementsStand(s, p, items, format, indent)
  {}

  lemma {:induction false} FirstElementTextStands(s: bytes, p: nat, items: Items, format: bool, indent: nat)
    requires items.Item? && At(s, p, FirstElement(items, format, indent))
    ensures FirstElementStands(s, p, items, format, indent)
    decreases items, 0
  {
    AtSplit(s, p, Text(items.value, format, indent), Separator(items.next.Item?, format));
    WidthIsLength(items.value, format, indent);
    TextStands(s, p, items.value, format, indent);
    SeparatorTextStands(s, p + Width(items.value, format, indent), items.next.Item?, format);
  }

  lemma KeyTextStands(s: bytes, p: nat, key: bytes, format: bool, indent: nat)
    requires At(s, p, Key(key, format, indent))
    ensures KeyStands(s, p, key, format, indent) && KeyWidth(key, format, indent) == |Key(key, format, indent)|
  {
    hide At, Quoted, StringWidth, StringStands, Blank, AfterKey;
    var tabs := Indent(format, indent);
    AtSplit3(s, p, tabs, Quoted(key), AfterKey(format));
    BlankAt(s, p, tabs);
    var k := p + |tabs|;
    QuotedStands(s, k, key);
    AfterKeyStands(s, k + |Quoted(key)|, format);
  }

  lemma AfterKeyStands(s: bytes, c: nat, format: bool)
    requires At(s, c, AfterKey(format))
    ensures |AfterKey(format)| == 1 + Pad(format)
    ensures Holds(s, c, COLON) && Blank(s, c + 1, c + 1 + Pad(format))
  {
    AtSplit(s, c, [COLON], Only(format, [TAB]));
    BlankAt(s, c + 1, Only(format, [TAB]));
  }

  lemma LineEndTextStands(s: bytes, q: nat, more: bool, format: bool)
    requires At(s, q, LineEnd(more, format))
    ensures |LineEnd(more, format)| == LineEndWidth(more, format) && LineEndStands(s, q, more, format)
  {
    var newline := Only(format, [NEWLINE]);
    if more {
      AtSplit(s, q, [COMMA], newline);
      BlankAt(s, q + 1, newline);
    } else {
      assert [] + newline == newline;
      BlankAt(s, q, newline);
    }
  }

  lemma {:induction false} MemberTextsStand(s: bytes, p: nat, members: Members, format: bool, indent: nat)
    requires At(s, p, MemberTexts(members, format, indent))
    ensures MembersStand(s, p, members, format, indent)
    decreases members, 1
  {
    hide *;
    if members.NoMember? {
      NoMembersStand(s, p, format, indent);
    } else {
      MembersApart(members, format, indent);
      AtSplit(s, p, FirstMember(members, format, indent), MemberTexts(members.next, format, indent));
      FirstMemberWidthIsLength(members, format, indent);
      FirstMemberTextStands(s, p, members, format, indent);
      MemberTextsStand(s, p + FirstMemberWidth(members, format, indent), members.next, format, indent);
      MembersStandTogether(s, p, members, format, indent);
    }
  }

  lemma NoMembersStand(s: bytes, p: nat, format: bool, indent: nat)
    ensures MembersStand(s, p, NoMember, format, indent)
  {}

  lemma MembersStandTogether(s: bytes, p: nat, members: Members, format: bool, indent: nat)
    requires members.Member? && FirstMemberStands(s, p, members, format, indent)
    requires MembersStand(s, p + FirstMemberWidth(members, format, indent), members.next, format, indent)
    ensures MembersStand(s, p, members, format, indent)
  {}

  lemma {:induction false} FirstMemberTextStands(s: bytes, p: nat, members: Members, format: bool, indent: nat)
    requires members.Member? && At(s, p, FirstMember(members, format, indent))
    ensures FirstMemberStands(s, p, members, format, indent)
    decreases members, 0
  {
    hide At;
    var key, text, lineEnd :=
      Key(members.key, format, indent), Text(members.value, format, indent), LineEnd(members.next.Member?, format);
    AtSplit3(s, p, key, text, lineEnd);
    KeyTextStands(s, p, members.key, format, indent);
    var v := p + KeyWidth(members.key, format, indent);
    WidthIsLength(members.value, format, indent);
    TextStands(s, v, members.value, format, indent);
    LineEndTextStands(s, v + Width(members.value, format, indent), members.next.Member?, format);
  }
}
