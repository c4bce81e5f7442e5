/**
 The value a cJSON tree stands for.  Elements and members form lists, as the next pointers of
 the children do; objects keep the order of their members.
 */
module JsonValue {
  import opened Bytes

  const NESTING_LIMIT: nat := 1000

  datatype Json =
    | Null
    | Bool(b: bool)
    | Number(n: int)
    | Str(s: bytes)
    | Arr(items: Items)
    | Obj(members: Members)

  datatype Items = NoItem | Item(value: Json, next: Items)

  datatype Members = NoMember | Member(key: bytes, value: Json, next: Members)

  /** The list a parsing loop has built, with another list behind it. */
  function ItemsThen(done: Items, rest: Items): Items {
    match done
    case NoItem => rest
    case Item(v, next) => Item(v, ItemsThen(next, rest))
  }

  function MembersThen(done: Members, rest: Members): Members {
    match done
    case NoMember => rest
    case Member(k, v, next) => Member(k, v, MembersThen(next, rest))
  }

  lemma OneThen(v: Json, rest: Items)
    ensures ItemsThen(Item(v, NoItem), rest) == Item(v, rest)
  {
    assert ItemsThen(NoItem, rest) == rest;
  }

  lemma OneMemberThen(k: bytes, v: Json, rest: Members)
    ensures MembersThen(Member(k, v, NoMember), rest) == Member(k, v, rest)
  {
    assert MembersThen(NoMember, rest) == rest;
  }

  lemma {:induction false} ItemsThenAssociates(a: Items, b: Items, c: Items)
    ensures ItemsThen(ItemsThen(a, b), c) == ItemsThen(a, ItemsThen(b, c))
    ensures ItemsThen(a, NoItem) == a
  {
    if a.Item? {
      ItemsThenAssociates(a.next, b, c);
    }
  }

  lemma {:induction false} MembersThenAssociates(a: Members, b: Members, c: Members)
    ensures MembersThen(MembersThen(a, b), c) == MembersThen(a, MembersThen(b, c))
    ensures MembersThen(a, NoMember) == a
  {
    if a.Member? {
      MembersThenAssociates(a.next, b, c);
    }
  }

  /** What fits the fields of a cJSON node: int-range numbers, terminated strings. */
  predicate Representable(v: Json) {
    match v
    case Null => true
    case Bool(_) => true
    case Number(n) => INT_MIN <= n <= INT_MAX
    case Str(s) => NulFree(s)
    case Arr(items) => RepresentableItems(items)
    case Obj(members) => RepresentableMembers(members)
  }

  predicate RepresentableItems(items: Items) {
    items.Item? ==> Representable(items.value) && RepresentableItems(items.next)
  }

  predicate RepresentableMembers(members: Members) {
    members.Member? ==>
      NulFree(members.key) && Representable(members.value) && RepresentableMembers(members.next)
  }

  /** Arrays and objects inside one another at most n deep. */
  predicate NestsWithin(v: Json, n: int) {
    match v
    case Arr(items) => n > 0 && ItemsNestWithin(items, n - 1)
    case Obj(members) => n > 0 && MembersNestWithin(members, n - 1)
    case _ => true
  }

  predicate ItemsNestWithin(items: Items, n: int) {
    items.Item? ==> NestsWithin(items.value, n) && ItemsNestWithin(items.next, n)
  }

  predicate MembersNestWithin(members: Members, n: int) {
    members.Member? ==> NestsWithin(members.value, n) && MembersNestWithin(members.next, n)
  }
}
