/** The print buffer and the printing functions that write into it. */
module Printer {
  import opened Bytes
  import opened JsonValue
  import opened StringCodec
  import opened Numbers
  import opened PrintText
  import opened Wrappers

  class PrintBuffer {
    var buffer: array<byte>
    var offset: nat
    var depth: nat
    const noalloc: bool
    const format: bool

    constructor (size: nat, format: bool)
      requires size <= INT_MAX
      ensures Valid() && fresh(buffer) && buffer.Length == size && offset == 0 && depth == 0
      ensures !noalloc && this.format == format
    {
      buffer := new byte[size];
      offset, depth := 0, 0;
      noalloc := false;
      this.format := format;
    }

    constructor Preallocated(buffer: array<byte>, format: bool)
      requires buffer.Length <= INT_MAX
      ensures Valid() && this.buffer == buffer && offset == 0 && depth == 0
      ensures noalloc && this.format == format
    {
      this.buffer := buffer;
      offset, depth := 0, 0;
      noalloc := true;
      this.format := format;
    }

    /** The buffer is never larger than an int can say, and something is left behind the output. */
    ghost predicate Valid()
      reads this
    {
      buffer.Length <= INT_MAX && (offset < buffer.Length || (offset == buffer.Length == 0))
    }

    /** What has been printed so far. */
    ghost function Out(): (r: bytes)
      reads this, buffer
      requires Valid()
      ensures |r| == offset
    {
      buffer[..offset]
    }

    /** How large the buffer may get: a preallocated one cannot grow. */
    ghost function Limit(): int
      reads this
    {
      if noalloc then buffer.Length else INT_MAX
    }

    /** The text stands from o on, terminated, and the output before it is `before`. */
    ghost predicate Stored(o: nat, before: bytes, text: bytes)
      reads this, buffer
    {
      && |before| == o && o + |text| < buffer.Length
      && buffer[..o + |text|] == before + text
      && buffer[o + |text|] == NUL
    }

    /**
     ensure: room for `needed` more bytes and one to spare.  It fails exactly when the buffer
     would have to exceed its limit.
     */
    method Ensure(needed: nat) returns (ok: bool)
      requires Valid()
      modifies this`buffer
      ensures Valid() && Limit() == old(Limit())
      ensures ok <==> offset + needed + 1 <= Limit()
      ensures ok ==> offset + needed + 1 <= buffer.Length
      ensures !ok ==> buffer == old(buffer)
      ensures Out() == old(Out())
      ensures buffer == old(buffer) || (!noalloc && fresh(buffer))
    {
      if buffer.Length > 0 && offset >= buffer.Length {
        return false;
      }
      if needed > INT_MAX {
        return false;
      }
      var total := needed + offset + 1;
      if total <= buffer.Length {
        return true;
      }
      if noalloc {
        return false;
      }
      var newsize;
      if total > INT_MAX / 2 {
        if total <= INT_MAX {
          newsize := INT_MAX;
        } else {
          return false;
        }
      } else {
        newsize := total * 2;
      }
      var newbuffer := Reallocate(newsize);
      buffer := newbuffer;
      return true;
    }

    /** realloc: the old contents at the front of a larger block. */
    method Reallocate(newsize: nat) returns (newbuffer: array<byte>)
      requires buffer.Length <= newsize
      ensures fresh(newbuffer) && newbuffer.Length == newsize
      ensures newbuffer[..buffer.Length] == buffer[..]
    {
      newbuffer := new byte[newsize];
      forall i | 0 <= i < buffer.Length {
        newbuffer[i] := buffer[i];
      }
    }

    /** Bytes written behind the output, which moves past them. */
    method Append(text: bytes)
      requires Valid() && offset + |text| < buffer.Length
      modifies this`offset, buffer
      ensures Valid() && Out() == old(Out()) + text
    {
      forall i | 0 <= i < |text| {
        buffer[offset + i] := text[i];
      }
      offset := offset + |text|;
    }

    /** strcpy behind the output, which stays where it is. */
    method Store(text: bytes)
      requires Valid() && offset + |text| < buffer.Length
      modifies buffer
      ensures Valid() && Stored(offset, old(Out()), text)
    {
      forall i | 0 <= i < |text| {
        buffer[offset + i] := text[i];
      }
      buffer[offset + |text|] := NUL;
    }

    /** update_offset: strlen from the current offset. */
    method UpdateOffset(ghost o: nat, ghost before: bytes, ghost text: bytes)
      requires Valid() && Stored(o, before, text) && NulFree(text) && o <= offset <= o + |text|
      modifies this`offset
      ensures Valid() && Out() == before + text
    {
      assert forall i :: o <= i < o + |text| ==> buffer[..o + |text|][i] == (before + text)[i] == text[i - o];
      while buffer[offset] != NUL
        invariant o <= offset <= o + |text|
        decreases o + |text| - offset
      {
        offset := offset + 1;
      }
    }

    /** print_number, for a number that is its own valueint. */
    method PrintNumber(n: int) returns (ok: bool)
      requires Valid()
      modifies this`buffer, this`offset, buffer
      ensures Valid() && Limit() == old(Limit())
      ensures ok <==> old(offset) + |Decimal(n)| + 2 <= Limit()
      ensures ok ==> offset == old(offset) + |Decimal(n)| && Stored(old(offset), old(Out()), Decimal(n))
      ensures buffer == old(buffer) || (!noalloc && fresh(buffer))
    {
      var numberBuffer := Decimal(n);
      ok := Ensure(|numberBuffer| + 1);
      if ok {
        Store(numberBuffer);
        offset := offset + |numberBuffer|;
      }
    }

    /** print_string_ptr: counts the escapes, asks for exactly that room, then writes. */
    method PrintStringPtr(input: bytes) returns (ok: bool)
      requires Valid()
      modifies this`buffer, buffer
      ensures Valid() && Limit() == old(Limit())
      ensures ok <==> offset + |Quoted(input)| + 2 <= Limit()
      ensures ok ==> Stored(offset, old(Out()), Quoted(input))
      ensures buffer == old(buffer) || (!noalloc && fresh(buffer))
    {
      var escapeCharacters := CountEscapes(input);
      var outputLength := |input| + escapeCharacters;
      EscapedLength(input);
      ok := Ensure(outputLength + 3);
      if !ok {
        return;
      }
      if escapeCharacters == 0 {
        Store([QUOTE] + input + [QUOTE]);
      } else {
        WriteQuoted(input, buffer, offset);
      }
    }

    /** ensure, then bytes behind the output.  Where it fails, the limit is within two bytes. */
    method Emit(text: bytes, needed: nat) returns (ok: bool)
      requires Valid() && |text| <= needed <= |text| + 1
      modifies this`buffer, this`offset, buffer
      ensures Valid() && Limit() == old(Limit()) && (buffer == old(buffer) || (!noalloc && fresh(buffer)))
      ensures ok ==> Out() == old(Out()) + text && offset < buffer.Length
      ensures !ok ==> old(offset) + |text| + 2 > Limit()
    {
      ok := Ensure(needed);
      if ok {
        Append(text);
      }
    }

    /** ensure, then a terminated text that the output does not move past. */
    method EmitLast(text: bytes) returns (ok: bool)
      requires Valid()
      modifies this`buffer, buffer
      ensures Valid() && Limit() == old(Limit()) && (buffer == old(buffer) || (!noalloc && fresh(buffer)))
      ensures ok <==> offset + |text| + 2 <= Limit()
      ensures ok ==> Stored(offset, old(Out()), text)
    {
      ok := Ensure(|text| + 1);
      if ok {
        Store(text);
      }
    }

    /** print_value and the functions it dispatches to. */
    method PrintValue(v: Json) returns (ok: bool)
      requires Valid() && Representable(v)
      modifies this, buffer
      ensures Valid() && Limit() == old(Limit()) && (buffer == old(buffer) || (!noalloc && fresh(buffer)))
      ensures ok <==> old(offset) + |Text(v, format, old(depth))| + 2 <= Limit()
      ensures ok ==>
                && depth == old(depth)
                && old(offset) <= offset <= old(offset) + |Text(v, format, depth)|
                && Stored(old(offset), old(Out()), Text(v, format, depth))
      decreases v, 4
    {
      match v
      case Null =>
        ok := EmitLast(NULL_TEXT);
      case Bool(b) =>
        ok := EmitLast(if b then TRUE_TEXT else FALSE_TEXT);
      case Number(n) =>
        ok := PrintNumber(n);
      case Str(s) =>
        ok := PrintStringPtr(s);
      case Arr(items) =>
        ok := PrintArray(items);
      case Obj(members) =>
        ok := PrintObject(members);
    }

    /** A value with the update_offset that follows it at every call inside an array or object. */
    method PrintChild(v: Json) returns (ok: bool)
      requires Valid() && Representable(v)
      modifies this, buffer
      ensures Valid() && Limit() == old(Limit()) && (buffer == old(buffer) || (!noalloc && fresh(buffer)))
      ensures ok ==> depth == old(depth) && Out() == old(Out()) + Text(v, format, depth)
      ensures !ok ==> old(offset) + |Text(v, format, old(depth))| + 2 > Limit()
      decreases v, 5
    {
      TextHasNoNul(v, format, depth);
      ghost var o, before, text := offset, Out(), Text(v, format, depth);
      ok := PrintValue(v);
      if ok {
        UpdateOffset(o, before, text);
      }
    }

    method PrintArray(items: Items) returns (ok: bool)
      requires Valid() && Representable(Arr(items))
      modifies this, buffer
      ensures Valid() && Limit() == old(Limit()) && (buffer == old(buffer) || (!noalloc && fresh(buffer)))
      ensures ok <==> old(offset) + |Text(Arr(items), format, old(depth))| + 2 <= Limit()
      ensures ok ==>
                && depth == old(depth)
                && old(offset) <= offset <= old(offset) + |Text(Arr(items), format, depth)|
                && Stored(old(offset), old(Out()), Text(Arr(items), format, depth))
      decreases items, 2
    {
      ghost var inside := Elements(items, format, depth + 1);
      assert Text(Arr(items), format, depth) == [LBRACKET] + inside + [RBRACKET];
      ok := Emit([LBRACKET], 1);
      if !ok {
        return;
      }
      depth := depth + 1;
      ok := PrintElements(items);
      if ok {
        ok := Close([RBRACKET], old(Out()), [LBRACKET], inside);
      }
    }

    /** The closing bracket completes a text that began earlier; the output stays before it. */
    method Close(closing: bytes, ghost before: bytes, ghost opening: bytes, ghost middle: bytes) returns (ok: bool)
      requires Valid() && depth > 0 && Out() == before + opening + middle
      modifies this`buffer, this`depth, buffer
      ensures Valid() && Limit() == old(Limit()) && (buffer == old(buffer) || (!noalloc && fresh(buffer)))
      ensures ok <==> |before| + |opening + middle + closing| + 2 <= Limit()
      ensures ok ==>
                && depth == old(depth) - 1
                && |before| <= offset <= |before| + |opening + middle + closing|
                && Stored(|before|, before, opening + middle + closing)
    {
      ok := EmitLast(closing);
      if ok {
        depth := depth - 1;
        ConcatThree(before, opening, middle, closing);
      }
    }

    method PrintElements(items: Items) returns (ok: bool)
      requires Valid() && RepresentableItems(items)
      modifies this, buffer
      ensures Valid() && Limit() == old(Limit()) && (buffer == old(buffer) || (!noalloc && fresh(buffer)))
      ensures ok ==> depth == old(depth) && Out() == old(Out()) + Elements(items, format, depth)
      ensures !ok ==> old(offset) + |Elements(items, format, old(depth))| + 2 > Limit()
      decreases items, 1
    {
      ghost var whole := Out() + Elements(items, format, depth);
      var current := items;
      while current.Item?
        invariant Valid() && Limit() == old(Limit()) && (buffer == old(buffer) || (!noalloc && fresh(buffer)))
        invariant depth == old(depth) && RepresentableItems(current)
        invariant whole == Out() + Elements(current, format, depth)
        invariant current == items || current < items
        decreases current
      {
        ConcatAssociates(Out(), FirstElement(current, format, depth), Elements(current.next, format, depth));
        ok := PrintElement(current);
        if !ok {
          return;
        }
        current := current.next;
      }
      assert Out() + [] == Out();
      ok := true;
    }

    method PrintElement(current: Items) returns (ok: bool)
      requires Valid() && current.Item? && Representable(current.value)
      modifies this, buffer
      ensures Valid() && Limit() == old(Limit()) && (buffer == old(buffer) || (!noalloc && fresh(buffer)))
      ensures ok ==> depth == old(depth) && Out() == old(Out()) + FirstElement(current, format, depth)
      ensures !ok ==> old(offset) + |FirstElement(current, format, old(depth))| + 2 > Limit()
      decreases current, 0
    {
      ghost var start, text := Out(), Text(current.value, format, depth);
      ok := PrintChild(current.value);
      if ok {
        var separator := if current.next.NoItem? then [] else if format then [COMMA, SPACE] else [COMMA];
        assert separator == Separator(current.next.Item?, format);
        if separator != [] {
          ok := Emit(separator, |separator| + 1);
        }
        ConcatAssociates(start, text, separator);
      }
    }

    method PrintObject(members: Members) returns (ok: bool)
      requires Valid() && Representable(Obj(members))
      modifies this, buffer
      ensures Valid() && Limit() == old(Limit()) && (buffer == old(buffer) || (!noalloc && fresh(buffer)))
      ensures ok <==> old(offset) + |Text(Obj(members), format, old(depth))| + 2 <= Limit()
      ensures ok ==>
                && depth == old(depth)
                && old(offset) <= offset <= old(offset) + |Text(Obj(members), format, depth)|
                && Stored(old(offset), old(Out()), Text(Obj(members), format, depth))
      decreases members, 3
    {
      ghost var opening, inside, closing :=
        Opening(format), MemberTexts(members, format, depth + 1), Closing(format, depth);
      assert Text(Obj(members), format, depth) == opening + inside + closing;
      ok := PrintOpened(members);
      if ok {
        ok := Close(Closing(format, depth - 1), old(Out()), opening, inside);
      }
    }

    /** An object up to its last member. */
    method PrintOpened(members: Members) returns (ok: bool)
      requires Valid()
      requires RepresentableMembers(members)
      modifies this, buffer
      ensures Valid() && Limit() == old(Limit()) && (buffer == old(buffer) || (!noalloc && fresh(buffer)))
      ensures ok ==> depth == old(depth) + 1 && Out() == old(Out()) + Opening(format) + MemberTexts(members,
            format, depth)
      ensures !ok ==> old(offset) + |Opening(format)| + |MemberTexts(members, format, old(depth) + 1)| + 2 > Limit()
      decreases members, 2
    {
      var opening := if format then [LBRACE, NEWLINE] else [LBRACE];
      assert opening == Opening(format);
      ok := Emit(opening, |opening| + 1);
      if !ok {
        return;
      }
      depth := depth + 1;
      ok := PrintMembers(members);
    }

    method PrintMembers(members: Members) returns (ok: bool)
      requires Valid()
      requires RepresentableMembers(members)
      modifies this, buffer
      ensures Valid() && Limit() == old(Limit()) && (buffer == old(buffer) || (!noalloc && fresh(buffer)))
      ensures ok ==> depth == old(depth) && Out() == old(Out()) + MemberTexts(members, format, depth)
      ensures !ok ==> old(offset) + |MemberTexts(members, format, old(depth))| + 2 > Limit()
      decreases members, 1
    {
      ghost var whole := Out() + MemberTexts(members, format, depth);
      var current := members;
      while current.Member?
        invariant Valid() && Limit() == old(Limit()) && (buffer == old(buffer) || (!noalloc && fresh(buffer)))
        invariant depth == old(depth) && RepresentableMembers(current)
        invariant whole == Out() + MemberTexts(current, format, depth)
        invariant current == members || current < members
        decreases current
      {
        ConcatAssociates(Out(), FirstMember(current, format, depth), MemberTexts(current.next, format, depth));
        ok := PrintMember(current);
        if !ok {
          return;
        }
        current := current.next;
      }
      assert Out() + [] == Out();
      ok := true;
    }

    method PrintMember(current: Members) returns (ok: bool)
      requires Valid() && current.Member? && NulFree(current.key) && Representable(current.value)
      modifies this, buffer
      ensures Valid() && Limit() == old(Limit()) && (buffer == old(buffer) || (!noalloc && fresh(buffer)))
      ensures ok ==> depth == old(depth) && Out() == old(Out()) + FirstMember(current, format, depth)
      ensures !ok ==> old(offset) + |FirstMember(current, format, old(depth))| + 2 > Limit()
      decreases current, 0
    {
      ghost var start := Out();
      ok := PrintKey(current.key);
      if ok {
        ok := PrintChild(current.value);
      }
      if ok {
        ok := PrintLineEnd(current.next.Member?);
        ConcatThree(start, Key(current.key, format, depth), Text(current.value, format, depth),
                    LineEnd(current.next.Member?, format));
      }
    }

    method PrintLineEnd(more: bool) returns (ok: bool)
      requires Valid()
      modifies this`buffer, this`offset, buffer
      ensures Valid() && Limit() == old(Limit()) && (buffer == old(buffer) || (!noalloc && fresh(buffer)))
      ensures ok ==> Out() == old(Out()) + LineEnd(more, format)
      ensures !ok ==> old(offset) + |LineEnd(more, format)| + 2 > Limit()
    {
      var lineEnd := (if more then [COMMA] else []) + (if format then [NEWLINE] else []);
      ok := Emit(lineEnd, |lineEnd| + 1);
      if ok {
        buffer[offset] := NUL;
      }
    }

    /** Indentation, key and colon. */
    method PrintKey(key: bytes) returns (ok: bool)
      requires Valid() && NulFree(key)
      modifies this`buffer, this`offset, buffer
      ensures Valid() && Limit() == old(Limit()) && (buffer == old(buffer) || (!noalloc && fresh(buffer)))
      ensures ok ==> Out() == old(Out()) + Key(key, format, depth)
      ensures !ok ==> old(offset) + |Key(key, format, depth)| + 2 > Limit()
    {
      ghost var start := Out();
      if format {
        ok := EmitTabs(depth);
        if !ok {
          return;
        }
      } else {
        assert Out() == start + Indent(format, depth);
      }
      EscapedHasNoNul(key);
      ghost var o, before := offset, Out();
      ok := PrintStringPtr(key);
      if !ok {
        return;
      }
      UpdateOffset(o, before, Quoted(key));
      var afterKey := if format then [COLON, TAB] else [COLON];
      assert afterKey == AfterKey(format);
      ok := Emit(afterKey, |afterKey|);
      ConcatThree(start, Indent(format, depth), Quoted(key), afterKey);
    }

    method EmitTabs(n: nat) returns (ok: bool)
      requires Valid()
      modifies this`buffer, this`offset, buffer
      ensures Valid() && Limit() == old(Limit()) && (buffer == old(buffer) || (!noalloc && fresh(buffer)))
      ensures ok ==> Out() == old(Out()) + Tabs(n)
      ensures !ok ==> old(offset) + n + 2 > Limit()
    {
      ok := Ensure(n);
      if !ok {
        return;
      }
      FillTabs(buffer, offset, n);
      assert buffer[..offset + n] == buffer[..offset] + Tabs(n);
      offset := offset + n;
    }
  }

  method FillTabs(output: array<byte>, o: nat, n: nat)
    requires o + n <= output.Length
    modifies output
    ensures output[..o] == old(output[..o]) && output[o..o + n] == Tabs(n)
  {
    for i := 0 to n
      invariant forall j :: 0 <= j < o ==> output[j] == old(output[j])
      invariant forall j :: o <= j < o + i ==> output[j] == TAB
    {
      output[o + i] := TAB;
    }
  }

  method CountEscapes(input: bytes) returns (escapeCharacters: nat)
    ensures escapeCharacters == EscapeCharacters(input)
  {
    escapeCharacters := 0;
    for i := 0 to |input|
      invariant escapeCharacters == EscapeCharacters(input[..i])
    {
      var c := input[i];
      EscapedNext(input, i);
      if c == QUOTE || c == BACKSLASH || c == BACKSPACE || c == FORMFEED || c == NEWLINE || c == RETURN || c == TAB {
        escapeCharacters := escapeCharacters + 1;
      } else if c < 32 {
        escapeCharacters := escapeCharacters + 5;
      }
    }
    assert input[..|input|] == input;
  }

  /** The end of print_string_ptr: the text between its two quotes. */
  method WriteQuoted(input: bytes, output: array<byte>, at: nat)
    requires at + |Quoted(input)| < output.Length
    modifies output
    ensures output[..at + |Quoted(input)|] == old(output[..at]) + Quoted(input)
    ensures output[at + |Quoted(input)|] == NUL
  {
    output[at] := QUOTE;
    var o := WriteEscaped(input, output, at + 1);
    output[o] := QUOTE;
    output[o + 1] := NUL;
    assert output[..o + 1] == old(output[..at]) + [QUOTE] + Escaped(input) + [QUOTE];
    ConcatThree(old(output[..at]), [QUOTE], Escaped(input), [QUOTE]);
  }

  /** The writing loop of print_string_ptr. */
  method WriteEscaped(input: bytes, output: array<byte>, o: nat) returns (o': nat)
    requires o + |Escaped(input)| < output.Length
    modifies output
    ensures o' == o + |Escaped(input)|
    ensures output[..o'] == old(output[..o]) + Escaped(input)
  {
    o' := o;
    ghost var before := output[..o];
    for i := 0 to |input|
      invariant o' == o + |Escaped(input[..i])| <= o + |Escaped(input)|
      invariant output[..o'] == before + Escaped(input[..i])
    {
      EscapedNext(input, i);
      ConcatAssociates(before, Escaped(input[..i]), Escape(input[i]));
      o' := WriteEscape(input[i], output, o');
    }
    assert input[..|input|] == input;
  }

  method WriteEscape(c: byte, output: array<byte>, o: nat) returns (o': nat)
    requires o + |Escape(c)| < output.Length
    modifies output
    ensures o' == o + |Escape(c)|
    ensures output[..o'] == old(output[..o]) + Escape(c)
  {
    if c > 31 && c != QUOTE && c != BACKSLASH {
      output[o] := c;
      return o + 1;
    }
    output[o] := BACKSLASH;
    if c == BACKSLASH {
      output[o + 1] := BACKSLASH;
    } else if c == QUOTE {
      output[o + 1] := QUOTE;
    } else if c == BACKSPACE {
      output[o + 1] := LOWER_B;
    } else if c == FORMFEED {
      output[o + 1] := LOWER_F;
    } else if c == NEWLINE {
      output[o + 1] := LOWER_N;
    } else if c == RETURN {
      output[o + 1] := LOWER_R;
    } else if c == TAB {
      output[o + 1] := LOWER_T;
    } else {
      // sprintf "u%04x", with its terminator
      output[o + 1], output[o + 2], output[o + 3] := LOWER_U, ZERO, ZERO;
      output[o + 4], output[o + 5], output[o + 6] := HexChar(c / 16), HexChar(c % 16), NUL;
      return o + 6;
    }
    return o + 2;
  }

  // ----- the entry points

  /** cJSON_Print and cJSON_PrintUnformatted. */
  method Print(v: Json, format: bool) returns (printed: Option<bytes>)
    requires Representable(v)
    ensures printed ==
            if |Text(v, format, 0)| + 2 <= INT_MAX then Some(Text(v, format, 0)) else None
  {
    var p := new PrintBuffer(256, format);
    assert p.Out() == [];
    var ok := p.PrintValue(v);
    if !ok {
      return None;
    }
    TextHasNoNul(v, format, 0);
    p.UpdateOffset(0, [], Text(v, format, 0));
    assert p.Out() == Text(v, format, 0);
    return Some(p.buffer[..p.offset]);
  }

  /** cJSON_PrintPreallocated: two bytes beyond the text are needed, not one. */
  method PrintPreallocated(v: Json, buffer: array<byte>, format: bool) returns (ok: bool)
    requires Representable(v) && buffer.Length <= INT_MAX
    modifies buffer
    ensures ok <==> |Text(v, format, 0)| + 2 <= buffer.Length
    ensures ok ==> UpToNul(buffer[..]) == Text(v, format, 0)
  {
    var p := new PrintBuffer.Preallocated(buffer, format);
    assert p.Out() == [];
    ok := p.PrintValue(v);
    if ok {
      ghost var text := Text(v, format, 0);
      TextHasNoNul(v, format, 0);
      assert buffer[..|text|] == [] + text;
      TerminatedText(buffer[..], text);
    }
  }
}
