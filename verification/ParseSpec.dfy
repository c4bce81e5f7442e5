/** What parse_value reads at an offset: the value and where it stops, or where it fails. */
module ParseSpec {
  import opened Bytes
  import opened Escapes
  import opened JsonValue
  import opened StringCodec
  import opened Numbers

  datatype Outcome<+T> = Success(value: T, offset: nat) | Failure(offset: nat, depth: nat)

  /** Elements already read, in front of those a loop still reads. */
  function AfterItems(done: Items, r: Outcome<Items>): Outcome<Items> {
    if r.Success? then Success(ItemsThen(done, r.value), r.offset) else r
  }

  function AfterMembers(done: Members, r: Outcome<Members>): Outcome<Members> {
    if r.Success? then Success(MembersThen(done, r.value), r.offset) else r
  }

  lemma AfterItemsTwice(done: Items, v: Json, r: Outcome<Items>)
    ensures AfterItems(done, AfterItems(Item(v, NoItem), r)) == AfterItems(ItemsThen(done, Item(v, NoItem)), r)
  {
    if r.Success? {
      ItemsThenAssociates(done, Item(v, NoItem), r.value);
    }
  }

  lemma AfterMembersTwice(done: Members, k: bytes, v: Json, r: Outcome<Members>)
    ensures AfterMembers(done, AfterMembers(Member(k, v, NoMember), r)) ==
            AfterMembers(MembersThen(done, Member(k, v, NoMember)), r)
  {
    if r.Success? {
      MembersThenAssociates(done, Member(k, v, NoMember), r.value);
    }
  }

  // ----- buffer_skip_whitespace

  function SkipRun(s: bytes, o: nat): (q: nat)
    requires o <= |s|
    ensures o <= q <= |s| && (q < |s| ==> s[q] > 32)
    decreases |s| - o
  {
    if o < |s| && s[o] <= 32 then SkipRun(s, o + 1) else o
  }

  /** A run of white space up to the end of the buffer is left by one step back into it. */
  function SkipWhitespace(s: bytes, o: nat): (q: nat)
    requires o <= |s|
    ensures o <= q <= |s| && (o < |s| ==> q < |s|)
  {
    if o == |s| then o
    else
      var q := SkipRun(s, o);
      if q == |s| then q - 1 else q
  }

  // ----- parse_string

  function ParseStringAt(s: bytes, o: nat, d: nat): (r: Outcome<bytes>)
    requires o < |s|
    ensures o < r.offset <= |s|
    ensures r.Failure? ==> r.depth == d
  {
    if s[o] != QUOTE then Failure(o + 1, d)
    else
      var scan := ScanFrom(s, o + 1);
      if scan.Unterminated? then Failure(o + 1, d)
      else
        var r := Decode(s, o + 1, scan.end);
        if r.Malformed? then Failure(r.at, d) else Success(UpToNul(r.out), scan.end + 1)
  }

  /**
   A string is a C string: the value is all that was decoded exactly when the walk from the opening
   quote meets no NUL, raw or as an escape; otherwise it is what stands before the first one.
   */
  lemma WholeStringIff(s: bytes, o: nat, d: nat)
    requires o < |s| && ParseStringAt(s, o, d).Success?
    ensures var end, value := ScanFrom(s, o + 1).end, ParseStringAt(s, o, d).value;
            var out := Decode(s, o + 1, end).out;
            if NulMet(s, o + 1, end) then value + [NUL] <= out else value == out
  {
    var end := ScanFrom(s, o + 1).end;
    var out := Decode(s, o + 1, end).out;
    DecodedHasNulIff(s, o + 1, end);
    if NulMet(s, o + 1, end) {
      CutAtNul(out);
    } else {
      UpToNulOfCString(out, []);
    }
  }

  lemma CutAtNul(t: bytes)
    requires !NulFree(t)
    ensures UpToNul(t) + [NUL] <= t
  {
    var r := UpToNul(t);
    assert r != t;
    assert t[..|r|] == r && |r| < |t|;
  }

  /** An a, an escape whose digits are z, a b: ten bytes with the quotes, read as the a alone. */
  lemma CutOffExample()
    ensures var z: byte := 122;
            var s := [QUOTE, LOWER_A, BACKSLASH, LOWER_U, z, z, z, z, LOWER_B, QUOTE];
            ParseStringAt(s, 0, 0) == Success([LOWER_A], 10)
  {
    hide Utf16Literal;
    var z: byte := 122;
    var s := [QUOTE, LOWER_A, BACKSLASH, LOWER_U, z, z, z, z, LOWER_B, QUOTE];
    assert ScanFrom(s, 9) == Closed(9, 0);
    assert ScanFrom(s, 8) == ScanFrom(s, 7) == ScanFrom(s, 6) == ScanFrom(s, 5) == ScanFrom(s, 4) == Closed(9, 0);
    assert ScanFrom(s, 2) == Closed(9, 1);
    assert Decode(s, 9, 9) == Decoded([]);
    assert Decode(s, 8, 9) == Decoded([LOWER_B]);
    assert s[4] == z;
    BadDigitsReadAsNul(s, 2, 9);
    assert StepAt(s, 2, 9) == Step(6, [NUL]);
    assert Decode(s, 2, 9) == Decoded([NUL, LOWER_B]);
    assert Decode(s, 1, 9) == Decoded([LOWER_A, NUL, LOWER_B]);
    UpToNulOfCString([LOWER_A], [LOWER_B]);
    assert [LOWER_A, NUL, LOWER_B] == [LOWER_A] + [NUL] + [LOWER_B];
  }

  // ----- the way into an array or object

  datatype Entry = TooDeep | CutOff(offset: nat) | Empty(offset: nat) | Filled(offset: nat)

  /** What follows the opening bracket at o; the loop over a filled one starts a byte before it. */
  function EntryAt(s: bytes, o: nat, d: nat, close: byte): (e: Entry)
    requires o < |s|
    ensures e.CutOff? || e.Filled? ==> o <= e.offset < |s|
    ensures e.Empty? ==> o < e.offset <= |s|
  {
    var o1 := SkipWhitespace(s, o + 1);
    if d >= NESTING_LIMIT then TooDeep
    else if o1 == |s| then CutOff(o1 - 1)
    else if s[o1] == close then Empty(o1 + 1)
    else Filled(o1 - 1)
  }

  function InArray(r: Outcome<Items>): Outcome<Json> {
    if r.Success? then Success(Arr(r.value), r.offset) else Failure(r.offset, r.depth)
  }

  function InObject(r: Outcome<Members>): Outcome<Json> {
    if r.Success? then Success(Obj(r.value), r.offset) else Failure(r.offset, r.depth)
  }

  // ----- parse_value, parse_array, parse_object

  function ParseValueAt(s: bytes, o: nat, d: nat): (r: Outcome<Json>)
    requires o <= |s| && d <= NESTING_LIMIT
    ensures o <= r.offset <= |s|
    ensures r.Success? ==> o < r.offset
    ensures r.Failure? ==> d <= r.depth <= NESTING_LIMIT
    decreases |s| - o, 2
  {
    if NullAt(s, o) then Success(Null, o + 4)
    else if FalseAt(s, o) then Success(Bool(false), o + 5)
    else if TrueAt(s, o) then Success(Bool(true), o + 4)
    else if o == |s| then Failure(o, d)
    else if s[o] == QUOTE then
      var r := ParseStringAt(s, o, d);
      if r.Success? then Success(Str(r.value), r.offset) else Failure(r.offset, r.depth)
    else if s[o] == MINUS || IsDigit(s[o]) then
      var r := ParseNumberAt(s, o);
      if r.Literal? then Success(Number(IntOf(r)), o + r.consumed) else Failure(o, d)
    else if s[o] == LBRACKET then ParseArrayAt(s, o, d)
    else if s[o] == LBRACE then ParseObjectAt(s, o, d)
    else Failure(o, d)
  }

  function ParseArrayAt(s: bytes, o: nat, d: nat): (r: Outcome<Json>)
    requires o < |s| && s[o] == LBRACKET && d <= NESTING_LIMIT
    ensures o <= r.offset <= |s|
    ensures r.Success? ==> o < r.offset
    ensures r.Failure? ==> d <= r.depth <= NESTING_LIMIT
    decreases |s| - o, 1
  {
    match EntryAt(s, o, d, RBRACKET)
    case TooDeep => Failure(o, d)
    case CutOff(o') => Failure(o', d + 1)
    case Empty(o') => Success(Arr(NoItem), o')
    case Filled(o') =>
      InArray(ElementsAt(s, o', d + 1))
  }

  /** The loop of parse_array, from the bracket or comma at o to behind the closing bracket. */
  function ElementsAt(s: bytes, o: nat, d: nat): (r: Outcome<Items>)
    requires o < |s| && d <= NESTING_LIMIT
    ensures o <= r.offset <= |s|
    ensures r.Success? ==> o < r.offset
    ensures r.Failure? ==> d <= r.depth <= NESTING_LIMIT
    decreases |s| - o, 0
  {
    var first := ElementAt(s, o, d);
    if first.Failure? then Failure(first.offset, first.depth)
    else
      var o' := SkipWhitespace(s, first.offset);
      if o' < |s| && s[o'] == COMMA then
        AfterItems(Item(first.value, NoItem), ElementsAt(s, o', d))
      else if o' < |s| && s[o'] == RBRACKET then Success(Item(first.value, NoItem), o' + 1)
      else Failure(o', d)
  }

  /** One element, from the bracket or comma before it. */
  function ElementAt(s: bytes, o: nat, d: nat): (r: Outcome<Json>)
    requires o < |s| && d <= NESTING_LIMIT
    ensures o <= r.offset <= |s|
    ensures r.Success? ==> o < r.offset
    ensures r.Failure? ==> d <= r.depth <= NESTING_LIMIT
    decreases |s| - o, 0, 0
  {
    ParseValueAt(s, SkipWhitespace(s, o + 1), d)
  }

  function ParseObjectAt(s: bytes, o: nat, d: nat): (r: Outcome<Json>)
    requires o < |s| && s[o] == LBRACE && d <= NESTING_LIMIT
    ensures o <= r.offset <= |s|
    ensures r.Success? ==> o < r.offset
    ensures r.Failure? ==> d <= r.depth <= NESTING_LIMIT
    decreases |s| - o, 1
  {
    match EntryAt(s, o, d, RBRACE)
    case TooDeep => Failure(o, d)
    case CutOff(o') => Failure(o', d + 1)
    case Empty(o') => Success(Obj(NoMember), o')
    case Filled(o') =>
      InObject(MembersAt(s, o', d + 1))
  }

  /** A key and the colon behind it: the offset after the white space that follows. */
  function KeyAt(s: bytes, o: nat, d: nat): (r: Outcome<bytes>)
    requires o < |s|
    ensures o <= r.offset <= |s|
    ensures r.Success? ==> o + 1 < r.offset
    ensures r.Failure? ==> r.depth == d
  {
    if o + 1 >= |s| then Failure(o, d)
    else
      var key := ParseStringAt(s, SkipWhitespace(s, o + 1), d);
      if key.Failure? then key
      else
        var o' := SkipWhitespace(s, key.offset);
        if o' == |s| || s[o'] != COLON then Failure(o', d)
        else Success(key.value, SkipWhitespace(s, o' + 1))
  }

  /** The loop of parse_object, from the brace or comma at o to behind the closing brace. */
  function MembersAt(s: bytes, o: nat, d: nat): (r: Outcome<Members>)
    requires o < |s| && d <= NESTING_LIMIT
    ensures o <= r.offset <= |s|
    ensures r.Success? ==> o < r.offset
    ensures r.Failure? ==> d <= r.depth <= NESTING_LIMIT
    decreases |s| - o, 0
  {
    var first := MemberAt(s, o, d);
    if first.Failure? then Failure(first.offset, first.depth)
    else
      var o' := SkipWhitespace(s, first.offset);
      if o' < |s| && s[o'] == COMMA then
        AfterMembers(first.value, MembersAt(s, o', d))
      else if o' < |s| && s[o'] == RBRACE then Success(first.value, o' + 1)
      else Failure(o', d)
  }

  /** One member, from the brace or comma before its key to the end of its value. */
  function MemberAt(s: bytes, o: nat, d: nat): (r: Outcome<Members>)
    requires o < |s| && d <= NESTING_LIMIT
    ensures o <= r.offset <= |s|
    ensures r.Success? ==> o < r.offset
    ensures r.Failure? ==> d <= r.depth <= NESTING_LIMIT
    decreases |s| - o, 0, 0
  {
    var key := KeyAt(s, o, d);
    if key.Failure? then Failure(key.offset, key.depth)
    else
      var value := ParseValueAt(s, key.offset, d);
      if value.Failure? then Failure(value.offset, value.depth)
      else Success(Member(key.value, value.value, NoMember), value.offset)
  }

  // ----- cJSON_ParseWithLengthOpts

  datatype ParseResult = Parsed(value: Json, end: nat) | ParseError(position: nat)

  /** A byte order mark is skipped only when at least two more bytes follow it. */
  function SkipBom(s: bytes): (o: nat)
    ensures o <= |s|
  {
    if |s| > 4 && s[0] == 0xEF && s[1] == 0xBB && s[2] == 0xBF then 3 else 0
  }

  function ErrorAt(s: bytes, o: nat): (r: ParseResult)
    requires o <= |s|
    ensures r.ParseError? && (s != [] ==> r.position < |s|)
  {
    ParseError(if o < |s| then o else if s != [] then |s| - 1 else 0)
  }

  /** The whole entry point; with requireTerminated only white space may stand before the terminator. */
  function ParseText(s: bytes, requireTerminated: bool): (r: ParseResult)
    ensures r.Parsed? ==> 0 < r.end <= |s|
    ensures r.Parsed? && requireTerminated ==> r.end < |s| && s[r.end] == NUL
    ensures r.ParseError? && s != [] ==> r.position < |s|
  {
    if s == [] then ErrorAt(s, 0)
    else
      var r := ParseValueAt(s, SkipWhitespace(s, SkipBom(s)), 0);
      if r.Failure? then ErrorAt(s, r.offset)
      else if !requireTerminated then Parsed(r.value, r.offset)
      else
        var o := SkipWhitespace(s, r.offset);
        if o == |s| || s[o] != NUL then ErrorAt(s, o) else Parsed(r.value, o)
  }
}
