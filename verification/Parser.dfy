/** The parse buffer and the recursive-descent parser that moves through it. */
module Parser {
  import opened Bytes
  import opened JsonValue
  import opened StringCodec
  import opened Numbers
  import opened ParseSpec
  import opened Wrappers

  class ParseBuffer {
    const content: bytes
    var offset: nat
    var depth: nat

    constructor (content: bytes)
      ensures this.content == content && offset == 0 && depth == 0
    {
      this.content := content;
      offset, depth := 0, 0;
    }

    /** The nesting limit is never exceeded and the buffer never left. */
    ghost predicate Valid()
      reads this
    {
      offset <= |content| && depth <= NESTING_LIMIT
    }

    /** The call did what `r` says; success leaves the depth as it found it, at d. */
    ghost predicate Did<T>(r: Outcome<T>, ok: bool, value: T, d: nat)
      reads this
    {
      && Valid()
      && ok == r.Success?
      && offset == r.offset
      && depth == (if ok then d else r.depth)
      && (ok ==> value == r.value)
    }

    predicate CanAccess(index: nat)
      reads this
    {
      offset + index < |content|
    }

    predicate Sees(c: byte)
      reads this
    {
      CanAccess(0) && content[offset] == c
    }

    method SkipWhitespace()
      requires Valid()
      modifies this`offset
      ensures Valid() && offset == ParseSpec.SkipWhitespace(content, old(offset))
    {
      if !CanAccess(0) {
        return;
      }
      while CanAccess(0) && content[offset] <= 32
        invariant old(offset) <= offset <= |content|
        invariant SkipRun(content, offset) == SkipRun(content, old(offset))
        decreases |content| - offset
      {
        offset := offset + 1;
      }
      if offset == |content| {
        offset := offset - 1;
      }
    }

    method SkipUtf8Bom()
      requires Valid() && offset == 0
      modifies this`offset
      ensures Valid() && offset == SkipBom(content)
    {
      if CanAccess(4) && content[0] == 0xEF && content[1] == 0xBB && content[2] == 0xBF {
        offset := offset + 3;
      }
    }

    method ParseNumber() returns (ok: bool, value: Json)
      requires Valid()
      modifies this`offset
      ensures var r := ParseNumberAt(content, old(offset));
              && ok == r.Literal?
              && offset == old(offset) + (if ok then r.consumed else 0)
              && (ok ==> value == Number(IntOf(r)))
    {
      value := Null;
      var text := CopyNumber(content, offset);
      var number := Strtod(text);
      ok := number.Literal?;
      if ok {
        value := Number(IntOf(number));
        offset := offset + number.consumed;
      }
    }

    method ParseString(ghost r: Outcome<bytes>) returns (ok: bool, value: bytes)
      requires Valid() && CanAccess(0)
      requires r == ParseStringAt(content, offset, depth)
      modifies this`offset
      ensures Did(r, ok, value, depth)
    {
      ok, value, offset := ReadString(content, offset, depth, r);
    }

    method ParseValue(ghost r: Outcome<Json>) returns (ok: bool, value: Json)
      requires Valid()
      requires r == ParseValueAt(content, offset, depth)
      modifies this
      ensures Did(r, ok, value, old(depth))
      decreases |content| - offset, 4
    {
      value := Null;
      if NullAt(content, offset) {
        offset := offset + 4;
        return true, Null;
      }
      if FalseAt(content, offset) {
        offset := offset + 5;
        return true, Bool(false);
      }
      if TrueAt(content, offset) {
        offset := offset + 4;
        return true, Bool(true);
      }
      if Sees(QUOTE) {
        var text;
        ok, text := ParseString(ParseStringAt(content, offset, depth));
        return ok, Str(text);
      }
      if CanAccess(0) && (content[offset] == MINUS || IsDigit(content[offset])) {
        ok, value := ParseNumber();
        return;
      }
      if Sees(LBRACKET) {
        ok, value := ParseArray(ParseArrayAt(content, offset, depth));
        return;
      }
      if Sees(LBRACE) {
        ok, value := ParseObject(ParseObjectAt(content, offset, depth));
        return;
      }
      return false, Null;
    }

    method ParseArray(ghost r: Outcome<Json>) returns (ok: bool, value: Json)
      requires Valid() && Sees(LBRACKET)
      requires r == ParseArrayAt(content, offset, depth)
      modifies this
      ensures Did(r, ok, value, old(depth))
      decreases |content| - offset, 3
    {
      var entry := Enter(RBRACKET);
      match entry
      case Empty(_) =>
        return true, Arr(NoItem);
      case Filled(_) =>
        ok, value := ParseArrayBody(r);
      case _ =>
        return false, Null;
    }

    method ParseArrayBody(ghost r: Outcome<Json>) returns (ok: bool, value: Json)
      requires Valid() && CanAccess(0) && depth > 0
      requires r == InArray(ElementsAt(content, offset, depth))
      modifies this
      ensures Did(r, ok, value, old(depth) - 1)
      decreases |content| - offset, 2
    {
      value := Null;
      var items;
      ok, items := ParseElements(ElementsAt(content, offset, depth));
      if ok {
        depth := depth - 1;
        value := Arr(items);
      }
    }

    /** How parse_array and parse_object begin: one level down, to the first byte that matters. */
    method Enter(close: byte) returns (entry: Entry)
      requires Valid() && CanAccess(0)
      modifies this
      ensures Valid() && entry == EntryAt(content, old(offset), old(depth), close)
      ensures match entry
              case TooDeep => offset == old(offset) && depth == old(depth)
              case CutOff(o) => offset == o && depth == old(depth) + 1
              case Empty(o) => offset == o && depth == old(depth)
              case Filled(o) => offset == o && depth == old(depth) + 1
    {
      if depth >= NESTING_LIMIT {
        return TooDeep;
      }
      depth := depth + 1;
      offset := offset + 1;
      SkipWhitespace();
      if Sees(close) {
        depth := depth - 1;
        offset := offset + 1;
        return Empty(offset);
      }
      offset := offset - 1;
      return if offset + 1 < |content| then Filled(offset) else CutOff(offset);
    }

    /** The do-while loop of parse_array, and the bracket behind it. */
    method ParseElements(ghost r: Outcome<Items>) returns (ok: bool, items: Items)
      requires Valid() && CanAccess(0)
      requires r == ElementsAt(content, offset, depth)
      modifies this
      ensures Did(r, ok, items, old(depth))
      decreases |content| - offset, 1
    {
      items := NoItem;
      while true
        invariant Valid() && depth == old(depth) && old(offset) <= offset && CanAccess(0)
        invariant r == AfterItems(items, ElementsAt(content, offset, depth))
        decreases |content| - offset
      {
        var done, value := items, Null;
        ok, value := ParseElement(ElementAt(content, offset, depth));
        if !ok {
          return;
        }
        SkipWhitespace();
        items := ItemsThen(done, Item(value, NoItem));
        if !Sees(COMMA) {
          break;
        }
        AfterItemsTwice(done, value, ElementsAt(content, offset, depth));
      }
      ok := Sees(RBRACKET);
      if ok {
        offset := offset + 1;
      }
    }

    method ParseElement(ghost r: Outcome<Json>) returns (ok: bool, value: Json)
      requires Valid() && CanAccess(0)
      requires r == ElementAt(content, offset, depth)
      modifies this
      ensures Did(r, ok, value, old(depth))
      decreases |content| - offset, 0
    {
      offset := offset + 1;
      SkipWhitespace();
      ok, value := ParseValue(r);
    }

    method ParseObject(ghost r: Outcome<Json>) returns (ok: bool, value: Json)
      requires Valid() && Sees(LBRACE)
      requires r == ParseObjectAt(content, offset, depth)
      modifies this
      ensures Did(r, ok, value, old(depth))
      decreases |content| - offset, 3
    {
      var entry := Enter(RBRACE);
      match entry
      case Empty(_) =>
        return true, Obj(NoMember);
      case Filled(_) =>
        ok, value := ParseObjectBody(r);
      case _ =>
        return false, Null;
    }

    method ParseObjectBody(ghost r: Outcome<Json>) returns (ok: bool, value: Json)
      requires Valid() && CanAccess(0) && depth > 0
      requires r == InObject(MembersAt(content, offset, depth))
      modifies this
      ensures Did(r, ok, value, old(depth) - 1)
      decreases |content| - offset, 2
    {
      value := Null;
      var members;
      ok, members := ParseMembers(MembersAt(content, offset, depth));
      if ok {
        depth := depth - 1;
        value := Obj(members);
      }
    }

    /** The do-while loop of parse_object, and the brace behind it. */
    method ParseMembers(ghost r: Outcome<Members>) returns (ok: bool, members: Members)
      requires Valid() && CanAccess(0)
      requires r == MembersAt(content, offset, depth)
      modifies this
      ensures Did(r, ok, members, old(depth))
      decreases |content| - offset, 1
    {
      members := NoMember;
      while true
        invariant Valid() && depth == old(depth) && old(offset) <= offset && CanAccess(0)
        invariant r == AfterMembers(members, MembersAt(content, offset, depth))
        decreases |content| - offset
      {
        var done, member := members, NoMember;
        ok, member := ParseMember(MemberAt(content, offset, depth));
        if !ok {
          return;
        }
        SkipWhitespace();
        members := MembersThen(done, member);
        if !Sees(COMMA) {
          break;
        }
        AfterMembersTwice(done, member.key, member.value, MembersAt(content, offset, depth));
      }
      ok := Sees(RBRACE);
      if ok {
        offset := offset + 1;
      }
    }

    method ParseMember(ghost r: Outcome<Members>) returns (ok: bool, member: Members)
      requires Valid() && CanAccess(0)
      requires r == MemberAt(content, offset, depth)
      modifies this
      ensures Did(r, ok, member, old(depth))
      decreases |content| - offset, 0
    {
      member := NoMember;
      var key, value;
      ok, key := ParseKey(KeyAt(content, offset, depth));
      if ok {
        ok, value := ParseValue(ParseValueAt(content, offset, depth));
        if ok {
          member := Member(key, value, NoMember);
        }
      }
    }

    /** The key of a member and the colon behind it, from the brace or comma before it. */
    method ParseKey(ghost r: Outcome<bytes>) returns (ok: bool, key: bytes)
      requires Valid() && CanAccess(0)
      requires r == KeyAt(content, offset, depth)
      modifies this`offset
      ensures Did(r, ok, key, depth)
    {
      hide ParseStringAt;
      key := [];
      if !CanAccess(1) {
        return false, [];
      }
      offset := offset + 1;
      SkipWhitespace();
      ok, key := ParseString(ParseStringAt(content, offset, depth));
      if !ok {
        return;
      }
      SkipWhitespace();
      if !Sees(COLON) {
        return false, [];
      }
      offset := offset + 1;
      SkipWhitespace();
    }
  }

  /** parse_string: measures the string at o, decodes it, and says where the offset is left. */
  method ReadString(content: bytes, o: nat, ghost d: nat, ghost r: Outcome<bytes>)
    returns (ok: bool, value: bytes, o': nat)
    requires o < |content| && r == ParseStringAt(content, o, d)
    ensures ok == r.Success? && o' == r.offset && (ok ==> value == r.value)
  {
    ok, value := false, [];
    var start := o + 1;
    if content[o] != QUOTE {
      return false, [], start;
    }
    var scan := ScanString(content, start);
    if scan.Unterminated? {
      return false, [], start;
    }
    var decoded, stopped := DecodeString(content, start, scan);
    if decoded.Malformed? {
      return false, [], stopped;
    }
    return true, UpToNul(decoded.out), scan.end + 1;
  }

  /** cJSON_ParseWithLengthOpts: the tree and the end of its text, or where parsing failed. */
  method ParseWithLengthOpts(value: bytes, requireTerminated: bool) returns (r: ParseResult)
    ensures r == ParseText(value, requireTerminated)
  {
    if value == [] {
      return ParseError(0);
    }
    var buffer := new ParseBuffer(value);
    buffer.SkipUtf8Bom();
    buffer.SkipWhitespace();
    var ok, item := buffer.ParseValue(ParseValueAt(value, buffer.offset, 0));
    if ok && requireTerminated {
      buffer.SkipWhitespace();
      ok := buffer.Sees(NUL);
    }
    if ok {
      return Parsed(item, buffer.offset);
    }
    return ParseError(if buffer.offset < |value| then buffer.offset else |value| - 1);
  }

  /** cJSON_Parse: a C string, with the terminator as the last byte of the buffer. */
  method Parse(text: bytes) returns (item: Option<Json>)
    requires NulFree(text)
    ensures var r := ParseText(text + [NUL], false);
            item == if r.Parsed? then Some(r.value) else None
  {
    var r := ParseWithLengthOpts(text + [NUL], false);
    return if r.Parsed? then Some(r.value) else None;
  }
}
