/**
 What kind of tree can come out of the parser, whatever the input: one that the printer can write
 and the parser can read again.
 */
module ParsedTrees {
  import opened Bytes
  import opened JsonValue
  import opened StringCodec
  import opened Numbers
  import opened PrintText
  import opened ParseSpec
  import opened RoundTrip

  /** A tree that a parser at depth d may build. */
  predicate Sound(v: Json, d: nat) {
    Representable(v) && NestsWithin(v, NESTING_LIMIT - d)
  }

  predicate ItemsSound(items: Items, d: nat) {
    RepresentableItems(items) && ItemsNestWithin(items, NESTING_LIMIT - d)
  }

  predicate MembersSound(members: Members, d: nat) {
    RepresentableMembers(members) && MembersNestWithin(members, NESTING_LIMIT - d)
  }

  lemma {:induction false} ValueIsSound(s: bytes, o: nat, d: nat)
    requires o <= |s| && d <= NESTING_LIMIT
    ensures var r := ParseValueAt(s, o, d);
            r.Success? ==> Sound(r.value, d)
    decreases |s| - o, 2
  {
    if o < |s| && s[o] == LBRACKET {
      ArrayIsSound(s, o, d);
    } else if o < |s| && s[o] == LBRACE {
      ObjectIsSound(s, o, d);
    }
  }

  lemma {:induction false} ArrayIsSound(s: bytes, o: nat, d: nat)
    requires o < |s| && s[o] == LBRACKET && d <= NESTING_LIMIT
    ensures var r := ParseArrayAt(s, o, d);
            r.Success? ==> Sound(r.value, d)
    decreases |s| - o, 1
  {
    var e := EntryAt(s, o, d, RBRACKET);
    if e.Filled? {
      ElementsAreSound(s, e.offset, d + 1);
    }
  }

  lemma {:induction false} ElementsAreSound(s: bytes, o: nat, d: nat)
    requires o < |s| && d <= NESTING_LIMIT
    ensures var r := ElementsAt(s, o, d);
            r.Success? ==> ItemsSound(r.value, d)
    decreases |s| - o, 0
  {
    var first := ElementAt(s, o, d);
    ValueIsSound(s, SkipWhitespace(s, o + 1), d);
    if first.Success? {
      var o' := SkipWhitespace(s, first.offset);
      if o' < |s| && s[o'] == COMMA {
        var rest := ElementsAt(s, o', d);
        ElementsAreSound(s, o', d);
        if rest.Success? {
          OneThen(first.value, rest.value);
        }
      }
    }
  }

  lemma {:induction false} ObjectIsSound(s: bytes, o: nat, d: nat)
    requires o < |s| && s[o] == LBRACE && d <= NESTING_LIMIT
    ensures var r := ParseObjectAt(s, o, d);
            r.Success? ==> Sound(r.value, d)
    decreases |s| - o, 1
  {
    var e := EntryAt(s, o, d, RBRACE);
    if e.Filled? {
      MembersAreSound(s, e.offset, d + 1);
    }
  }

  lemma {:induction false} MembersAreSound(s: bytes, o: nat, d: nat)
    requires o < |s| && d <= NESTING_LIMIT
    ensures var r := MembersAt(s, o, d);
            r.Success? ==> MembersSound(r.value, d)
    decreases |s| - o, 0
  {
    var first := MemberAt(s, o, d);
    MemberIsSound(s, o, d);
    if first.Success? {
      var o' := SkipWhitespace(s, first.offset);
      if o' < |s| && s[o'] == COMMA {
        var rest := MembersAt(s, o', d);
        MembersAreSound(s, o', d);
        if rest.Success? {
          OneMemberThen(first.value.key, first.value.value, rest.value);
        }
      }
    }
  }

  lemma {:induction false} MemberIsSound(s: bytes, o: nat, d: nat)
    requires o < |s| && d <= NESTING_LIMIT
    ensures var r := MemberAt(s, o, d);
            r.Success? ==> r.value.Member? && r.value.next.NoMember? && MembersSound(r.value, d)
    decreases |s| - o, 0, 0
  {
    var key := KeyAt(s, o, d);
    if key.Success? {
      ValueIsSound(s, key.offset, d);
    }
  }

  /** The round trip holds exactly for the trees the format and the nesting limit allow. */
  lemma RoundTripIff(v: Json, format: bool, requireTerminated: bool)
    ensures ParseText(Text(v, format, 0) + [NUL], requireTerminated) == Parsed(v, |Text(v, format, 0)|)
            <==> Representable(v) && NestsWithin(v, NESTING_LIMIT)
  {
    var s := Text(v, format, 0) + [NUL];
    ValueIsSound(s, SkipWhitespace(s, SkipBom(s)), 0);
    if Representable(v) && NestsWithin(v, NESTING_LIMIT) {
      PrintedTextParses(v, format, requireTerminated);
    }
  }

  /** So many arrays inside one another. */
  function Nested(k: nat): Json {
    if k == 0 then Null else Arr(Item(Nested(k - 1), NoItem))
  }

  lemma {:induction false} NestedWithin(k: nat, n: int)
    ensures Representable(Nested(k)) && (NestsWithin(Nested(k), n) <==> k == 0 || k <= n)
  {
    if k > 0 {
      NestedWithin(k - 1, n - 1);
      assert Nested(k).items.value == Nested(k - 1);
      assert ItemsNestWithin(NoItem, n - 1) && RepresentableItems(NoItem);
    }
  }

  /** A thousand arrays inside one another are read, and one more is not. */
  lemma DeepestNesting(k: nat, format: bool)
    ensures ParseText(Text(Nested(k), format, 0) + [NUL], true) == Parsed(Nested(k), |Text(Nested(k), format, 0)|)
            <==> k <= 1000
  {
    RoundTripIff(Nested(k), format, true);
    NestedWithin(k, NESTING_LIMIT);
  }

  /**
   Whatever text was accepted, printing its tree gives a text that stands for the same tree.  The
   numbers of a tree are ints: of a text with other numbers the source prints other digits.
   */
  lemma ReprintedTextParsesAlike(s: bytes, format: bool, requireTerminated: bool)
    ensures var r := ParseText(s, requireTerminated);
            r.Parsed? ==>
              ParseText(Text(r.value, format, 0) + [NUL], true) == Parsed(r.value, |Text(r.value, format, 0)|)
  {
    var r := ParseText(s, requireTerminated);
    if r.Parsed? {
      ValueIsSound(s, SkipWhitespace(s, SkipBom(s)), 0);
      PrintedTextParses(r.value, format, true);
    }
  }
}
