/**
 JSON texts in whatever layout and spelling, and what the parser reads from them.  A document is a
 text taken apart: white space where sections 2, 4 and 5 of RFC 8259 allow it, strings as their
 pieces, numbers as their characters.
 */
module Documents {
  import opened Bytes
  import opened JsonValue
  import opened Numbers
  import opened ParseSpec
  import opened RoundTrip
  import opened StringCodec
  import opened Widths
  import opened WrittenStrings
  import G = Grammar

  datatype Doc =
    | Word(v: Json)
    | Figures(text: bytes)
    | Quotation(pieces: seq<Piece>)
    | NoList(blank: bytes)
    | List(elems: Elems)
    | NoDict(blank: bytes)
    | Dict(entries: Entries)

  datatype Elems = Elems(before: bytes, doc: Doc, after: bytes, rest: MoreElems)

  datatype MoreElems = NoMore | More(elems: Elems)

  datatype Entries =
    Entries(before: bytes, key: seq<Piece>, mid: bytes, between: bytes, doc: Doc, after: bytes, rest: MoreEntries)

  datatype MoreEntries = Enough | Further(entries: Entries)

  // ----- the text

  function Spelt(xs: seq<Piece>): bytes {
    [34] + AllWritten(xs) + [34]
  }

  function Flat(doc: Doc): bytes {
    match doc
    case Word(v) =>
      if v == Null then [110, 117, 108, 108]
      else if v == Bool(true) then [116, 114, 117, 101] else [102, 97, 108, 115, 101]
    case Figures(text) => text
    case Quotation(xs) => Spelt(xs)
    case NoList(blank) => [91] + blank + [93]
    case List(elems) => [91] + FlatElems(elems) + [93]
    case NoDict(blank) => [123] + blank + [125]
    case Dict(entries) => [123] + FlatEntries(entries) + [125]
  }

  function FlatElems(elems: Elems): bytes {
    elems.before + Flat(elems.doc) + elems.after
    + (if elems.rest.More? then [44] + FlatElems(elems.rest.elems) else [])
  }

  function FlatEntry(e: Entries): bytes
    decreases e, 0
  {
    e.before + Spelt(e.key) + e.mid + [58] + e.between + Flat(e.doc) + e.after
  }

  function FlatEntries(e: Entries): bytes
    decreases e, 1
  {
    FlatEntry(e) + if e.rest.Further? then [44] + FlatEntries(e.rest.entries) else []
  }

  // ----- what it is to be a document

  predicate NumberBytes(t: bytes) {
    forall i :: 0 <= i < |t| ==> 48 <= t[i] <= 57 || t[i] in [43, 45, 46, 69, 101]
  }

  /** A decimal literal of at most 63 characters. */
  predicate IsFigures(t: bytes) {
    && 0 < |t| <= 63 && (t[0] == 45 || 48 <= t[0] <= 57) && NumberBytes(t)
    && Strtod(t).Literal? && Strtod(t).consumed == |t|
  }

  predicate Correct(doc: Doc) {
    match doc
    case Word(v) => v.Null? || v.Bool?
    case Figures(text) => IsFigures(text)
    case Quotation(xs) => AllProper(xs)
    case NoList(blank) => G.Ws(blank)
    case List(elems) => ElemsCorrect(elems)
    case NoDict(blank) => G.Ws(blank)
    case Dict(entries) => EntriesCorrect(entries)
  }

  predicate ElemsCorrect(e: Elems) {
    G.Ws(e.before) && G.Ws(e.after) && Correct(e.doc) && (e.rest.More? ==> ElemsCorrect(e.rest.elems))
  }

  predicate EntriesCorrect(e: Entries) {
    && G.Ws(e.before) && AllProper(e.key) && G.Ws(e.mid) && G.Ws(e.between) && Correct(e.doc) && G.Ws(e.after)
    && (e.rest.Further? ==> EntriesCorrect(e.rest.entries))
  }

  /** Arrays and objects inside one another at most n deep. */
  predicate Within(doc: Doc, n: int) {
    match doc
    case NoList(_) => n > 0
    case List(elems) => n > 0 && ElemsWithin(elems, n - 1)
    case NoDict(_) => n > 0
    case Dict(entries) => n > 0 && EntriesWithin(entries, n - 1)
    case _ => true
  }

  predicate ElemsWithin(e: Elems, n: int) {
    Within(e.doc, n) && (e.rest.More? ==> ElemsWithin(e.rest.elems, n))
  }

  predicate EntriesWithin(e: Entries, n: int) {
    Within(e.doc, n) && (e.rest.Further? ==> EntriesWithin(e.rest.entries, n))
  }

  // ----- what it stands for

  function Tree(doc: Doc): Json
    requires Correct(doc)
  {
    match doc
    case Word(v) => v
    case Figures(text) => Number(IntOf(Strtod(text)))
    case Quotation(xs) => Str(AllMeant(xs))
    case NoList(_) => Arr(NoItem)
    case List(elems) => Arr(TreeElems(elems))
    case NoDict(_) => Obj(NoMember)
    case Dict(entries) => Obj(TreeEntries(entries))
  }

  function TreeElems(e: Elems): (items: Items)
    requires ElemsCorrect(e)
    ensures items.Item?
  {
    Item(Tree(e.doc), if e.rest.More? then TreeElems(e.rest.elems) else NoItem)
  }

  function TreeEntries(e: Entries): (members: Members)
    requires EntriesCorrect(e)
    ensures members.Member?
  {
    Member(AllMeant(e.key), Tree(e.doc), if e.rest.Further? then TreeEntries(e.rest.entries) else NoMember)
  }

  // ----- white space and numbers

  lemma {:induction false} WhiteIsBlank(s: bytes, p: nat, t: bytes)
    requires At(s, p, t) && G.Ws(t)
    ensures Blank(s, p, p + |t|)
    decreases |t|
  {
    if t != [] {
      assert forall i :: 0 <= i < |t[1..]| ==> t[1..][i] == t[i + 1];
      WhiteIsBlank(s, p + 1, t[1..]);
    }
  }

  lemma SkipWhite(s: bytes, p: nat, t: bytes)
    requires At(s, p, t) && G.Ws(t) && p + |t| < |s| && s[p + |t|] > 32
    ensures SkipWhitespace(s, p) == p + |t|
  {
    WhiteIsBlank(s, p, t);
    SkipTo(s, p, p + |t|);
  }

  /** What may stand behind a value. */
  predicate Parted(s: bytes, p: nat) {
    p < |s| && (s[p] in [0, 9, 10, 13, 32, 44, 93, 125])
  }

  lemma FiguresAreRead(s: bytes, p: nat, t: bytes, d: nat)
    requires IsFigures(t) && At(s, p, t) && Parted(s, p + |t|) && d <= NESTING_LIMIT
    ensures p < |s| && ParseValueAt(s, p, d) == Success(Number(IntOf(Strtod(t))), p + |t|)
  {
    hide Strtod, IntOf;
    AtFits(s, p, t);
    AtIsSlice(s, p, t);
    assert s[p] == t[0];
    assert forall i :: 0 <= i < |t| ==> IsNumberChar(t[i]);
    NumberEndOfText(s, p, NumberStop(s, p), t);
    assert NumberText(s, p) == t;
  }

  // ----- one value

  predicate Begins(s: bytes, p: nat) {
    p < |s| && s[p] in [34, 45, 48, 49, 50, 51, 52, 53, 54, 55, 56, 57, 91, 102, 110, 116, 123]
  }

  lemma DocBegins(s: bytes, p: nat, doc: Doc)
    requires Correct(doc) && At(s, p, Flat(doc))
    ensures Begins(s, p) && Flat(doc) != []
  {
    hide AllWritten, FlatElems, FlatEntries, ElemsCorrect, EntriesCorrect, AllProper, Strtod;
    assert Flat(doc) != [];
    AtIndex(s, p, Flat(doc), 0);
  }

  lemma WordIsRead(s: bytes, p: nat, v: Json, d: nat)
    requires (v.Null? || v.Bool?) && At(s, p, Flat(Word(v))) && d <= NESTING_LIMIT
    ensures ParseValueAt(s, p, d) == Success(v, p + |Flat(Word(v))|)
  {
    LiteralsStand(s, p);
  }

  lemma QuotationIsRead(s: bytes, p: nat, xs: seq<Piece>, d: nat)
    requires AllProper(xs) && At(s, p, Spelt(xs)) && d <= NESTING_LIMIT
    ensures p < |s| && ParseValueAt(s, p, d) == Success(Str(AllMeant(xs)), p + |Spelt(xs)|)
  {
    WrittenStringIsRead(s, p, xs, d);
    AtIndex(s, p, Spelt(xs), 0);
  }

  lemma NoListIsRead(s: bytes, p: nat, blank: bytes, d: nat)
    requires G.Ws(blank) && At(s, p, [91] + blank + [93]) && d < NESTING_LIMIT
    ensures p < |s| && ParseValueAt(s, p, d) == Success(Arr(NoItem), p + |blank| + 2)
  {
    AtSplit3(s, p, [91], blank, [93]);
    SkipWhite(s, p + 1, blank);
    Dispatch(s, p, d);
  }

  lemma NoDictIsRead(s: bytes, p: nat, blank: bytes, d: nat)
    requires G.Ws(blank) && At(s, p, [123] + blank + [125]) && d < NESTING_LIMIT
    ensures p < |s| && ParseValueAt(s, p, d) == Success(Obj(NoMember), p + |blank| + 2)
  {
    AtSplit3(s, p, [123], blank, [125]);
    SkipWhite(s, p + 1, blank);
    Dispatch(s, p, d);
  }

  /** Whatever stands behind a value does not begin one. */
  lemma {:induction false} DocIsRead(s: bytes, p: nat, doc: Doc, d: nat)
    requires Correct(doc) && d <= NESTING_LIMIT && Within(doc, NESTING_LIMIT - d)
    requires At(s, p, Flat(doc)) && Parted(s, p + |Flat(doc)|)
    ensures p < |s| && ParseValueAt(s, p, d) == Success(Tree(doc), p + |Flat(doc)|)
    decreases doc, 2
  {
    hide At, ParseValueAt, FlatElems, FlatEntries, Spelt, Strtod, Parted, AllProper, G.Ws;
    match doc
    case Word(v) =>
      WordIsRead(s, p, v, d);
      DocBegins(s, p, doc);
    case Figures(text) => FiguresAreRead(s, p, text, d);
    case Quotation(xs) => QuotationIsRead(s, p, xs, d);
    case NoList(blank) => NoListIsRead(s, p, blank, d);
    case List(elems) => ListIsRead(s, p, elems, d);
    case NoDict(blank) => NoDictIsRead(s, p, blank, d);
    case Dict(entries) => DictIsRead(s, p, entries, d);
  }

  // ----- arrays

  lemma ListStep(s: bytes, p: nat, d: nat, v: nat, items: Items, e: nat)
    requires p < v < |s| && s[p] == LBRACKET && d < NESTING_LIMIT && SkipWhitespace(s, p + 1) == v && Begins(s, v)
    requires ElementsAt(s, v - 1, d + 1) == Success(items, e)
    ensures ParseValueAt(s, p, d) == Success(Arr(items), e)
  {
    hide ElementsAt, SkipWhitespace;
    Dispatch(s, p, d);
  }

  lemma {:induction false} ListIsRead(s: bytes, p: nat, elems: Elems, d: nat)
    requires ElemsCorrect(elems) && d < NESTING_LIMIT && ElemsWithin(elems, NESTING_LIMIT - d - 1)
    requires At(s, p, [91] + FlatElems(elems) + [93])
    ensures p < |s| && ParseValueAt(s, p, d) == Success(Arr(TreeElems(elems)), p + |FlatElems(elems)| + 2)
    decreases elems, 2
  {
    hide ParseValueAt, FlatElems, SkipWhitespace, ElementsAt, ElemsCorrect, ElemsWithin;
    AtSplit3(s, p, [91], FlatElems(elems), [93]);
    var v := ElemsBegin(s, p + 1, elems);
    BeginsHere(s, v);
    ElemsAreRead(s, v - 1, p + 1, elems, d + 1);
    ListStep(s, p, d, v, TreeElems(elems), p + |FlatElems(elems)| + 2);
  }

  lemma BeginsHere(s: bytes, v: nat)
    requires Begins(s, v)
    ensures SkipWhitespace(s, v) == v
  {}

  /** From p on the parser reaches the first value, at v. */
  lemma ElemsBegin(s: bytes, p: nat, elems: Elems) returns (v: nat)
    requires ElemsCorrect(elems) && At(s, p, FlatElems(elems))
    ensures v == p + |elems.before| < |s| && Begins(s, v) && p <= |s| && SkipWhitespace(s, p) == v
  {
    hide Flat, G.Ws, FlatElems;
    ElemsApart(s, p, elems);
    v := p + |elems.before|;
    DocBegins(s, v, elems.doc);
    SkipWhite(s, p, elems.before);
  }

  lemma ElemsApart(s: bytes, p: nat, e: Elems)
    requires At(s, p, FlatElems(e))
    ensures var v := p + |e.before|;
            var q := v + |Flat(e.doc)|;
            var c := q + |e.after|;
            && At(s, p, e.before) && At(s, v, Flat(e.doc)) && At(s, q, e.after) && c <= |s|
            && (e.rest.More? ==> Holds(s, c, COMMA) && At(s, c + 1, FlatElems(e.rest.elems)))
            && p + |FlatElems(e)| == if e.rest.More? then c + 1 + |FlatElems(e.rest.elems)| else c
  {
    hide Flat;
    var tail := if e.rest.More? then [44] + FlatElems(e.rest.elems) else [];
    AtSplit(s, p, e.before + Flat(e.doc) + e.after, tail);
    AtSplit3(s, p, e.before, Flat(e.doc), e.after);
    AtFits(s, p, e.before + Flat(e.doc) + e.after);
    if e.rest.More? {
      AtSplit(s, p + |e.before + Flat(e.doc) + e.after|, [44], FlatElems(e.rest.elems));
    }
  }

  lemma OneElement(s: bytes, o: nat, d: nat, v: Json, q: nat, c: nat)
    requires o < |s| && d <= NESTING_LIMIT && ElementAt(s, o, d) == Success(v, q)
    requires q <= |s| && SkipWhitespace(s, q) == c
    ensures Holds(s, c, RBRACKET) ==> ElementsAt(s, o, d) == Success(Item(v, NoItem), c + 1)
    ensures Holds(s, c, COMMA) ==> ElementsAt(s, o, d) == AfterItems(Item(v, NoItem), ElementsAt(s, c, d))
  {
    hide ElementAt, SkipWhitespace;
  }

  lemma {:induction false} ElemsAreRead(s: bytes, o: nat, p: nat, e: Elems, d: nat)
    requires ElemsCorrect(e) && d <= NESTING_LIMIT && ElemsWithin(e, NESTING_LIMIT - d)
    requires o < |s| && SkipWhitespace(s, o + 1) == p + |e.before|
    requires At(s, p, FlatElems(e)) && Holds(s, p + |FlatElems(e)|, RBRACKET)
    ensures ElementsAt(s, o, d) == Success(TreeElems(e), p + |FlatElems(e)| + 1)
    decreases e, 1
  {
    hide ParseValueAt, Flat, FlatElems, SkipWhitespace, ElementsAt, G.Ws, Correct, Within, Tree, Begins;
    var v := p + |e.before|;
    var q := v + |Flat(e.doc)|;
    var c := q + |e.after|;
    ElemsApart(s, p, e);
    AfterIsPassed(s, q, e.after, c);
    DocIsRead(s, v, e.doc, d);
    OneElement(s, o, d, Tree(e.doc), q, c);
    if e.rest.More? {
      var next := ElemsBegin(s, c + 1, e.rest.elems);
      ElemsAreRead(s, c, c + 1, e.rest.elems, d);
      OneThen(Tree(e.doc), TreeElems(e.rest.elems));
    }
  }

  /** White space and then a comma or a bracket: the value has ended, and the parser reaches them. */
  lemma AfterIsPassed(s: bytes, q: nat, after: bytes, c: nat)
    requires G.Ws(after) && At(s, q, after) && c == q + |after| < |s|
    requires s[c] == COMMA || s[c] == RBRACKET || s[c] == RBRACE || s[c] == COLON
    ensures q <= |s| && SkipWhitespace(s, q) == c && (s[c] != COLON ==> Parted(s, q))
  {
    SkipWhite(s, q, after);
    if after != [] {
      AtIndex(s, q, after, 0);
    }
  }

  // ----- objects

  lemma DictStep(s: bytes, p: nat, d: nat, v: nat, members: Members, e: nat)
    requires p < v < |s| && s[p] == LBRACE && d < NESTING_LIMIT && SkipWhitespace(s, p + 1) == v && s[v] == QUOTE
    requires MembersAt(s, v - 1, d + 1) == Success(members, e)
    ensures ParseValueAt(s, p, d) == Success(Obj(members), e)
  {
    hide MembersAt, SkipWhitespace;
    Dispatch(s, p, d);
  }

  lemma {:induction false} DictIsRead(s: bytes, p: nat, entries: Entries, d: nat)
    requires EntriesCorrect(entries) && d < NESTING_LIMIT && EntriesWithin(entries, NESTING_LIMIT - d - 1)
    requires At(s, p, [123] + FlatEntries(entries) + [125])
    ensures p < |s| && ParseValueAt(s, p, d) == Success(Obj(TreeEntries(entries)), p + |FlatEntries(entries)| + 2)
    decreases entries, 2
  {
    hide ParseValueAt, FlatEntries, SkipWhitespace, MembersAt, EntriesCorrect, EntriesWithin;
    AtSplit3(s, p, [123], FlatEntries(entries), [125]);
    var v := EntriesBegin(s, p + 1, entries);
    BeginsHere(s, v);
    EntriesAreRead(s, v - 1, p + 1, entries, d + 1);
    DictStep(s, p, d, v, TreeEntries(entries), p + |FlatEntries(entries)| + 2);
  }

  lemma EntriesBegin(s: bytes, p: nat, e: Entries) returns (v: nat)
    requires EntriesCorrect(e) && At(s, p, FlatEntries(e))
    ensures v == p + |e.before| < |s| && s[v] == QUOTE && Begins(s, v) && p <= |s| && SkipWhitespace(s, p) == v
  {
    hide G.Ws, FlatEntries, Correct, Flat;
    EntriesApart(s, p, e);
    v := p + |e.before|;
    AtIndex(s, v, Spelt(e.key), 0);
    SkipWhite(s, p, e.before);
  }

  lemma EntriesApart(s: bytes, p: nat, e: Entries)
    requires At(s, p, FlatEntries(e))
    ensures var k := p + |e.before|;
            var m := k + |Spelt(e.key)|;
            var n := m + |e.mid|;
            var v := n + 1 + |e.between|;
            var q := v + |Flat(e.doc)|;
            var c := q + |e.after|;
            && At(s, p, e.before) && At(s, k, Spelt(e.key)) && At(s, m, e.mid) && Holds(s, n, COLON)
            && At(s, n + 1, e.between) && At(s, v, Flat(e.doc)) && At(s, q, e.after) && c <= |s|
            && (e.rest.Further? ==> Holds(s, c, COMMA) && At(s, c + 1, FlatEntries(e.rest.entries)))
            && p + |FlatEntries(e)| == if e.rest.Further? then c + 1 + |FlatEntries(e.rest.entries)| else c
  {
    hide Flat, Spelt;
    var tail := if e.rest.Further? then [44] + FlatEntries(e.rest.entries) else [];
    var front := e.before + Spelt(e.key) + e.mid;
    AtSplit(s, p, FlatEntry(e), tail);
    AtFits(s, p, FlatEntry(e));
    AtSplit(s, p, front + [58] + e.between + Flat(e.doc), e.after);
    AtSplit(s, p, front + [58] + e.between, Flat(e.doc));
    AtSplit3(s, p, front, [58], e.between);
    AtSplit3(s, p, e.before, Spelt(e.key), e.mid);
    if e.rest.Further? {
      AtSplit(s, p + |FlatEntry(e)|, [44], FlatEntries(e.rest.entries));
    }
  }

  lemma OneEntry(s: bytes, o: nat, d: nat, key: bytes, v: Json, q: nat, c: nat)
    requires o < |s| && d <= NESTING_LIMIT && MemberAt(s, o, d) == Success(Member(key, v, NoMember), q)
    requires q <= |s| && SkipWhitespace(s, q) == c
    ensures Holds(s, c, RBRACE) ==> MembersAt(s, o, d) == Success(Member(key, v, NoMember), c + 1)
    ensures Holds(s, c, COMMA) ==> MembersAt(s, o, d) == AfterMembers(Member(key, v, NoMember), MembersAt(s, c, d))
  {
    hide MemberAt, SkipWhitespace;
  }

  /** The key, the colon and the white space around it are read, up to the value at v. */
  lemma KeyIsRead(s: bytes, o: nat, k: nat, e: Entries, d: nat)
    requires EntriesCorrect(e) && o + 1 < |s| && SkipWhitespace(s, o + 1) == k && At(s, k, Spelt(e.key))
    requires var m := k + |Spelt(e.key)|;
             var n := m + |e.mid|;
             At(s, m, e.mid) && Holds(s, n, COLON) && At(s, n + 1, e.between) &&
             Begins(s, n + 1 + |e.between|)
    ensures KeyAt(s, o, d) ==
            Success(AllMeant(e.key), k + |Spelt(e.key)| + |e.mid| + 1 + |e.between|)
  {
    hide G.Ws, Correct, SkipWhitespace, At, Spelt, KeyAt, ParseStringAt, AllProper;
    var m := k + |Spelt(e.key)|;
    var n := m + |e.mid|;
    KeySpelt(s, k, e.key, d);
    AfterIsPassed(s, m, e.mid, n);
    SkipToValue(s, n + 1, e.between);
    KeyParts(s, o, k, d, AllMeant(e.key), m, n, n + 1 + |e.between|);
  }

  lemma KeySpelt(s: bytes, k: nat, xs: seq<Piece>, d: nat)
    requires AllProper(xs) && At(s, k, Spelt(xs))
    ensures k < |s| && ParseStringAt(s, k, d) == Success(AllMeant(xs), k + |Spelt(xs)|)
  {
    WrittenStringIsRead(s, k, xs, d);
  }

  lemma SkipToValue(s: bytes, p: nat, t: bytes)
    requires G.Ws(t) && At(s, p, t) && Begins(s, p + |t|)
    ensures p <= |s| && SkipWhitespace(s, p) == p + |t|
  {
    SkipWhite(s, p, t);
  }

  lemma KeyParts(s: bytes, o: nat, k: nat, d: nat, key: bytes, m: nat, n: nat, v: nat)
    requires o + 1 < |s| && k < |s| && m <= |s| && n < |s|
    requires SkipWhitespace(s, o + 1) == k && ParseStringAt(s, k, d) == Success(key, m)
    requires SkipWhitespace(s, m) == n && s[n] == COLON && SkipWhitespace(s, n + 1) == v
    ensures KeyAt(s, o, d) == Success(key, v)
  {
    hide SkipWhitespace, ParseStringAt;
  }

  lemma {:induction false} EntriesAreRead(s: bytes, o: nat, p: nat, e: Entries, d: nat)
    requires EntriesCorrect(e) && d <= NESTING_LIMIT && EntriesWithin(e, NESTING_LIMIT - d)
    requires o + 1 < |s| && SkipWhitespace(s, o + 1) == p + |e.before|
    requires At(s, p, FlatEntries(e)) && Holds(s, p + |FlatEntries(e)|, RBRACE)
    ensures MembersAt(s, o, d) == Success(TreeEntries(e), p + |FlatEntries(e)| + 1)
    decreases e, 1
  {
    hide *;
    var k := p + |e.before|;
    var v := k + |Spelt(e.key)| + |e.mid| + 1 + |e.between|;
    var q := v + |Flat(e.doc)|;
    var c := q + |e.after|;
    EntriesApart(s, p, e);
    PartsCorrect(e, NESTING_LIMIT - d);
    EntryEnds(s, q, e, c);
    DocBegins(s, v, e.doc);
    KeyIsRead(s, o, k, e, d);
    DocIsRead(s, v, e.doc, d);
    MemberStep(s, o, d, AllMeant(e.key), v, Tree(e.doc), q);
    OneEntry(s, o, d, AllMeant(e.key), Tree(e.doc), q, c);
    if e.rest.Further? {
      var next := EntriesBegin(s, c + 1, e.rest.entries);
      EntriesAreRead(s, c, c + 1, e.rest.entries, d);
      EntriesJoin(s, o, d, e, c, p + |FlatEntries(e)| + 1);
    } else {
      TreeOfLast(e);
    }
  }

  lemma PartsCorrect(e: Entries, n: int)
    requires EntriesCorrect(e) && EntriesWithin(e, n)
    ensures AllProper(e.key) && Correct(e.doc) && Within(e.doc, n)
    ensures e.rest.Further? ==> EntriesCorrect(e.rest.entries) && EntriesWithin(e.rest.entries, n)
  {}

  lemma EntryEnds(s: bytes, q: nat, e: Entries, c: nat)
    requires EntriesCorrect(e) && At(s, q, e.after) && c == q + |e.after|
    requires if e.rest.Further? then Holds(s, c, COMMA) else Holds(s, c, RBRACE)
    ensures q <= |s| && SkipWhitespace(s, q) == c && Parted(s, q) && c < |s|
  {
    hide Correct, SkipWhitespace, At, G.Ws;
    AfterIsPassed(s, q, e.after, c);
  }

  lemma EntriesJoin(s: bytes, o: nat, d: nat, e: Entries, c: nat, end: nat)
    requires EntriesCorrect(e) && e.rest.Further? && o < |s| && c < |s| && d <= NESTING_LIMIT
    requires MembersAt(s, o, d) == AfterMembers(Member(AllMeant(e.key), Tree(e.doc), NoMember), MembersAt(s, c, d))
    requires MembersAt(s, c, d) == Success(TreeEntries(e.rest.entries), end)
    ensures MembersAt(s, o, d) == Success(TreeEntries(e), end)
  {
    hide MembersAt, Tree, AllMeant;
    OneMemberThen(AllMeant(e.key), Tree(e.doc), TreeEntries(e.rest.entries));
  }

  lemma TreeOfLast(e: Entries)
    requires EntriesCorrect(e) && e.rest.Enough?
    ensures TreeEntries(e) == Member(AllMeant(e.key), Tree(e.doc), NoMember)
  {
    hide Tree, AllMeant;
  }

  // ----- the whole text

  /** A document with white space around it and its terminator, perhaps behind a byte order mark. */
  function Whole(mark: bool, before: bytes, doc: Doc, after: bytes): bytes {
    (if mark then [0xEF, 0xBB, 0xBF] else []) + before + Flat(doc) + after + [0]
  }

  /**
   Every JSON text is read, however it is laid out and its strings and numbers are written: cJSON_Parse
   gives the tree it stands for and comes to the end.
   */
  lemma DocumentIsRead(mark: bool, before: bytes, doc: Doc, after: bytes)
    requires G.Ws(before) && G.Ws(after) && Correct(doc) && Within(doc, 1000)
    ensures var s := Whole(mark, before, doc, after);
            && ParseText(s, true) == Parsed(Tree(doc), |s| - 1)
            && ParseText(s, false) == Parsed(Tree(doc), |s| - 1 - |after|)
  {
    hide ParseValueAt, SkipWhitespace, Flat, G.Ws, Correct, Within;
    var s := Whole(mark, before, doc, after);
    var front := if mark then [0xEF, 0xBB, 0xBF] else [];
    var p := |front|;
    var v := p + |before|;
    var q := v + |Flat(doc)|;
    WholeApart(mark, before, doc, after);
    DocBegins(s, v, doc);
    MarkIsPassed(s, mark, before, doc);
    SkipWhite(s, p, before);
    EndIsReached(s, q, after);
    DocIsRead(s, v, doc, 0);
  }

  lemma WholeApart(mark: bool, before: bytes, doc: Doc, after: bytes)
    ensures var s := Whole(mark, before, doc, after);
            var p := if mark then 3 else 0;
            var v := p + |before|;
            var q := v + |Flat(doc)|;
            && At(s, p, before) && At(s, v, Flat(doc)) && At(s, q, after) && |s| == q + |after| + 1 && s[|s| - 1] == 0
            && (mark ==> s[0] == 0xEF && s[1] == 0xBB && s[2] == 0xBF)
  {
    hide Flat;
    var front: bytes := if mark then [0xEF, 0xBB, 0xBF] else [];
    AtMiddle(front, before, Flat(doc) + after + [0]);
    AtMiddle(front + before, Flat(doc), after + [0]);
    AtMiddle(front + before + Flat(doc), after, [0]);
    assert front + before + (Flat(doc) + after + [0]) == Whole(mark, before, doc, after);
    assert front + before + Flat(doc) + (after + [0]) == Whole(mark, before, doc, after);
  }

  /** A mark is passed over, and nothing is where there is none. */
  lemma MarkIsPassed(s: bytes, mark: bool, before: bytes, doc: Doc)
    requires G.Ws(before) && At(s, if mark then 3 else 0, before)
    requires Begins(s, (if mark then 3 else 0) + |before|) && |s| > (if mark then 4 else 0)
    requires mark ==> s[0] == 0xEF && s[1] == 0xBB && s[2] == 0xBF
    ensures SkipBom(s) == if mark then 3 else 0
  {
    if !mark && before != [] {
      AtIndex(s, 0, before, 0);
    }
  }

  lemma EndIsReached(s: bytes, q: nat, after: bytes)
    requires G.Ws(after) && At(s, q, after) && |s| == q + |after| + 1 && s[|s| - 1] == 0
    ensures Parted(s, q) && SkipWhitespace(s, q) == |s| - 1
  {
    WhiteIsBlank(s, q, after);
    RunToEnd(s, q, |s| - 1);
    if after != [] {
      AtIndex(s, q, after, 0);
    }
  }

  lemma {:induction false} RunToEnd(s: bytes, q: nat, end: nat)
    requires q <= end && Blank(s, q, end) && end + 1 == |s| && s[end] == 0
    ensures SkipRun(s, q) == |s|
    decreases end - q
  {
    if q < end {
      RunToEnd(s, q + 1, end);
    } else {
      assert SkipRun(s, |s|) == |s|;
    }
  }
}
