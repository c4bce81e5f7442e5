/**
 The text print_value writes for a tree, formatted or not, at a given indentation.  This is what
 printing means; Widths says the same with positions, for the proof that parsing reads it back and
 for nothing else.
 */
module PrintText {
  import opened Bytes
  import opened JsonValue
  import opened StringCodec
  import opened Numbers

  function Tabs(n: nat): (r: bytes)
    ensures |r| == n && forall i :: 0 <= i < n ==> r[i] == TAB
  {
    if n == 0 then [] else [TAB] + Tabs(n - 1)
  }

  /** Bytes that only the formatted text has. */
  function Only(format: bool, t: bytes): bytes {
    if format then t else []
  }

  function Text(v: Json, format: bool, depth: nat): bytes
    decreases v, 2
  {
    match v
    case Null => NULL_TEXT
    case Bool(b) => if b then TRUE_TEXT else FALSE_TEXT
    case Number(n) => Decimal(n)
    case Str(s) => Quoted(s)
    case Arr(items) => [LBRACKET] + Elements(items, format, depth + 1) + [RBRACKET]
    case Obj(members) => Opening(format) + MemberTexts(members, format, depth + 1) + Closing(format, depth)
  }

  function Opening(format: bool): bytes {
    [LBRACE] + Only(format, [NEWLINE])
  }

  function Closing(format: bool, depth: nat): bytes {
    Only(format, Tabs(depth)) + [RBRACE]
  }

  function Separator(more: bool, format: bool): bytes {
    if more then [COMMA] + Only(format, [SPACE]) else []
  }

  function Elements(items: Items, format: bool, depth: nat): bytes
    decreases items, 1
  {
    if items.Item? then FirstElement(items, format, depth) + Elements(items.next, format, depth) else []
  }

  function FirstElement(items: Items, format: bool, depth: nat): bytes
    requires items.Item?
    decreases items, 0
  {
    Text(items.value, format, depth) + Separator(items.next.Item?, format)
  }

  function Indent(format: bool, depth: nat): bytes {
    Only(format, Tabs(depth))
  }

  function AfterKey(format: bool): bytes {
    [COLON] + Only(format, [TAB])
  }

  function LineEnd(more: bool, format: bool): bytes {
    (if more then [COMMA] else []) + Only(format, [NEWLINE])
  }

  function Key(key: bytes, format: bool, depth: nat): bytes {
    Indent(format, depth) + Quoted(key) + AfterKey(format)
  }

  function MemberTexts(members: Members, format: bool, depth: nat): bytes
    decreases members, 1
  {
    if members.Member? then FirstMember(members, format, depth) + MemberTexts(members.next, format, depth) else []
  }

  function FirstMember(members: Members, format: bool, depth: nat): bytes
    requires members.Member?
    decreases members, 0
  {
    Key(members.key, format, depth) + Text(members.value, format, depth) + LineEnd(members.next.Member?, format)
  }

  lemma ElementsApart(items: Items, format: bool, depth: nat)
    requires items.Item?
    ensures Elements(items, format, depth) == FirstElement(items, format, depth) + Elements(items.next, format, depth)
  {}

  lemma MembersApart(members: Members, format: bool, depth: nat)
    requires members.Member?
    ensures MemberTexts(members, format, depth) ==
            FirstMember(members, format, depth) + MemberTexts(members.next, format, depth)
  {}

  lemma {:induction false} TextHasNoNul(v: Json, format: bool, depth: nat)
    requires Representable(v)
    ensures NulFree(Text(v, format, depth))
  {
    match v
    case Null =>
    case Bool(_) =>
    case Number(n) => DecimalHasNoNul(n);
    case Str(s) => EscapedHasNoNul(s);
    case Arr(items) => ElementsHaveNoNul(items, format, depth + 1);
    case Obj(members) => MembersHaveNoNul(members, format, depth + 1);
  }

  lemma {:induction false} ElementsHaveNoNul(items: Items, format: bool, depth: nat)
    requires RepresentableItems(items)
    ensures NulFree(Elements(items, format, depth))
  {
    if items.Item? {
      TextHasNoNul(items.value, format, depth);
      ElementsHaveNoNul(items.next, format, depth);
    }
  }

  lemma {:induction false} MembersHaveNoNul(members: Members, format: bool, depth: nat)
    requires RepresentableMembers(members)
    ensures NulFree(MemberTexts(members, format, depth))
  {
    if members.Member? {
      EscapedHasNoNul(members.key);
      TextHasNoNul(members.value, format, depth);
      MembersHaveNoNul(members.next, format, depth);
    }
  }
}
