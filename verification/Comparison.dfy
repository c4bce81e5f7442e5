/**
 What cJSON_Compare decides about two trees, case-sensitively, and what that means: objects are
 maps, whatever the order of their members.
 */
module Comparison {
  import opened Bytes
  import opened ChildList
  import opened Wrappers

  /** The contents of a node and of the nodes below it. */
  datatype Value = Value(kind: Kind, number: int, text: bytes, name: Option<bytes>, kids: seq<Value>)

  function Size(v: Value): nat
    ensures forall i :: 0 <= i < |v.kids| ==> Size(v.kids[i]) < Size(v)
  {
    1 + Sizes(v.kids)
  }

  function Sizes(vs: seq<Value>): (n: nat)
    ensures forall i :: 0 <= i < |vs| ==> Size(vs[i]) <= n
  {
    if vs == [] then 0 else
      assert forall i :: 1 <= i < |vs| ==> vs[i] == vs[1..][i - 1];
      Size(vs[0]) + Sizes(vs[1..])
  }

  // ----- numbers

  function Abs(x: real): real {
    if x < 0.0 then -x else x
  }

  const DBL_EPSILON: real := 1.0 / 4503599627370496.0

  predicate CompareDouble(a: real, b: real) {
    Abs(a - b) <= (if Abs(a) > Abs(b) then Abs(a) else Abs(b)) * DBL_EPSILON
  }

  predicate InInt(n: int) {
    INT_MIN <= n <= INT_MAX
  }

  /** On values of type int the tolerance is too small to matter. */
  lemma CompareDoubleIsEquality(a: int, b: int)
    requires InInt(a) && InInt(b)
    ensures CompareDouble(a as real, b as real) <==> a == b
  {
    var m := if Abs(a as real) > Abs(b as real) then Abs(a as real) else Abs(b as real);
    assert 0.0 <= m <= 2147483648.0;
    assert m * DBL_EPSILON <= 2147483648.0 * DBL_EPSILON < 1.0;
    if a != b {
      assert Abs(a as real - b as real) >= 1.0;
    }
  }

  predicate InRange(v: Value) {
    (v.kind == KNumber ==> InInt(v.number)) && forall i :: 0 <= i < |v.kids| ==> InRange(v.kids[i])
  }

  // ----- get_object_item

  /** The first member of that name, or |vs|; the search also gives up at a member without a name. */
  function Find(vs: seq<Value>, name: Option<bytes>): (j: nat)
    ensures j <= |vs|
    ensures j < |vs| ==> name.Some? && vs[j].name == name
  {
    if vs == [] || name.None? || vs[0].name.None? then |vs|
    else if vs[0].name == name then 0
    else 1 + Find(vs[1..], name)
  }

  // ----- cJSON_Compare of two different nodes

  predicate Alike(a: Value, b: Value)
    decreases Size(a) + Size(b)
  {
    && a.kind == b.kind
    && match a.kind {
         case KNumber => CompareDouble(a.number as real, b.number as real)
         case KString => a.text == b.text
         case KArray =>
           |a.kids| == |b.kids| && forall i :: 0 <= i < |a.kids| ==> Alike(a.kids[i], b.kids[i])
         case KObject =>
           && (forall i :: 0 <= i < |a.kids| ==>
                 var j := Find(b.kids, a.kids[i].name);
                 j < |b.kids| && Alike(a.kids[i], b.kids[j]))
           && (forall i :: 0 <= i < |b.kids| ==>
                 var j := Find(a.kids, b.kids[i].name);
                 j < |a.kids| && Alike(b.kids[i], a.kids[j]))
         case _ => true
       }
  }

  // ----- what a tree denotes

  datatype Meaning =
    | ANull
    | ABool(b: bool)
    | ANumber(n: int)
    | AString(s: bytes)
    | AnArray(elements: seq<Meaning>)
    | AnObject(members: map<bytes, Meaning>)

  function MeaningOf(v: Value): Meaning {
    match v.kind
    case KNull => ANull
    case KFalse => ABool(false)
    case KTrue => ABool(true)
    case KNumber => ANumber(v.number)
    case KString => AString(v.text)
    case KArray => AnArray(seq(|v.kids|, i requires 0 <= i < |v.kids| => MeaningOf(v.kids[i])))
    case KObject =>
      AnObject(map name | name in Names(v.kids) && Find(v.kids, Some(name)) < |v.kids| ::
                 MeaningOf(v.kids[Find(v.kids, Some(name))]))
  }

  function Names(vs: seq<Value>): set<bytes> {
    set i | 0 <= i < |vs| && vs[i].name.Some? :: vs[i].name.value
  }

  /**
   Members of the same name denote the same value, and every member has a name.  Trees with
   unique keys are coherent; the parser also builds trees that are not.
   */
  predicate Coherent(v: Value) {
    && (v.kind == KArray || v.kind == KObject ==> forall i :: 0 <= i < |v.kids| ==> Coherent(v.kids[i]))
    && (v.kind == KObject ==> Named(v.kids) && SameNameSameMeaning(v.kids))
  }

  predicate Named(vs: seq<Value>) {
    forall i :: 0 <= i < |vs| ==> vs[i].name.Some?
  }

  predicate SameNameSameMeaning(vs: seq<Value>) {
    forall i, j :: 0 <= i < j < |vs| && vs[i].name == vs[j].name ==> MeaningOf(vs[i]) == MeaningOf(vs[j])
  }

  predicate UniqueKeys(v: Value) {
    && (forall i :: 0 <= i < |v.kids| ==> UniqueKeys(v.kids[i]))
    && (v.kind == KObject ==> Named(v.kids) && forall i,
          j :: 0 <= i < j < |v.kids| ==> v.kids[i].name != v.kids[j].name)
  }

  lemma {:induction false} UniqueKeysAreCoherent(v: Value)
    requires UniqueKeys(v)
    ensures Coherent(v)
  {
    forall i | 0 <= i < |v.kids|
      ensures Coherent(v.kids[i])
    {
      UniqueKeysAreCoherent(v.kids[i]);
    }
  }

  // ----- comparing decides equality of meaning

  /** Among named members a search finds every name there is. */
  lemma {:induction false} FindFinds(vs: seq<Value>, k: nat)
    requires Named(vs) && k < |vs|
    ensures Find(vs, vs[k].name) <= k
  {
    if vs[0].name != vs[k].name {
      FindFinds(vs[1..], k - 1);
    }
  }

  /** For two objects: each member of one denotes what its name denotes in the other. */
  predicate Reflected(a: Value, b: Value)
    requires a.kind == KObject && b.kind == KObject
  {
    forall i :: 0 <= i < |a.kids| ==>
      var j := Find(b.kids, a.kids[i].name);
      j < |b.kids| && MeaningOf(a.kids[i]) == MeaningOf(b.kids[j])
  }

  /** What an object denotes at a name is what the first member of that name denotes. */
  lemma MemberAt(v: Value, k: bytes)
    requires v.kind == KObject
    ensures var m := MeaningOf(v).members;
            var j := Find(v.kids, Some(k));
            && (k in m <==> j < |v.kids|)
            && (k in m ==> m[k] == MeaningOf(v.kids[j]))
  {
    var j := Find(v.kids, Some(k));
    assert j < |v.kids| ==> v.kids[j].name.Some? && v.kids[j].name.value in Names(v.kids);
  }

  predicate Within(a: map<bytes, Meaning>, b: map<bytes, Meaning>) {
    forall k :: k in a ==> k in b && a[k] == b[k]
  }

  lemma ReflectedIsWithin(a: Value, b: Value)
    requires a.kind == KObject && b.kind == KObject && Named(a.kids) && Reflected(a, b)
    ensures Within(MeaningOf(a).members, MeaningOf(b).members) && SameNameSameMeaning(a.kids)
  {
    forall k | k in MeaningOf(a).members
      ensures k in MeaningOf(b).members && MeaningOf(a).members[k] == MeaningOf(b).members[k]
    {
      MemberAt(a, k);
      MemberAt(b, k);
      assert a.kids[Find(a.kids, Some(k))].name == Some(k);
    }
  }

  lemma WithinIsReflected(a: Value, b: Value)
    requires a.kind == KObject && b.kind == KObject && Named(a.kids) && SameNameSameMeaning(a.kids)
    requires Within(MeaningOf(a).members, MeaningOf(b).members)
    ensures Reflected(a, b)
  {
    hide MeaningOf, Find, Within, SameNameSameMeaning;
    forall i | 0 <= i < |a.kids|
      ensures var j := Find(b.kids, a.kids[i].name);
              j < |b.kids| && MeaningOf(a.kids[i]) == MeaningOf(b.kids[j])
    {
      MemberIsReflected(a, b, i);
    }
  }

  lemma MemberIsReflected(a: Value, b: Value, i: nat)
    requires a.kind == KObject && b.kind == KObject && Named(a.kids) && SameNameSameMeaning(a.kids)
    requires Within(MeaningOf(a).members, MeaningOf(b).members) && i < |a.kids|
    ensures var j := Find(b.kids, a.kids[i].name);
            j < |b.kids| && MeaningOf(a.kids[i]) == MeaningOf(b.kids[j])
  {
    hide MeaningOf, Find;
    var k := a.kids[i].name.value;
    FindFinds(a.kids, i);
    MemberAt(a, k);
    MemberAt(b, k);
    var first := Find(a.kids, Some(k));
    assert a.kids[first].name == a.kids[i].name;
    assert first == i || MeaningOf(a.kids[first]) == MeaningOf(a.kids[i]);
  }

  /** Two coherent objects reflect each other exactly when they denote the same map. */
  lemma ReflectedBothWays(a: Value, b: Value)
    requires a.kind == KObject && b.kind == KObject && Named(a.kids) && Named(b.kids)
    ensures Reflected(a, b) && Reflected(b, a) <==>
            MeaningOf(a) == MeaningOf(b) && SameNameSameMeaning(a.kids) && SameNameSameMeaning(b.kids)
  {
    var ma, mb := MeaningOf(a).members, MeaningOf(b).members;
    if Reflected(a, b) && Reflected(b, a) {
      ReflectedIsWithin(a, b);
      ReflectedIsWithin(b, a);
      assert ma == mb;
    }
    if ma == mb && SameNameSameMeaning(a.kids) && SameNameSameMeaning(b.kids) {
      WithinIsReflected(a, b);
      WithinIsReflected(b, a);
    }
  }

  /** The first half of the object case of cJSON_Compare. */
  predicate Found(a: Value, b: Value) {
    forall i :: 0 <= i < |a.kids| ==> FoundIn(a.kids[i], b)
  }

  predicate FoundIn(member: Value, b: Value) {
    var j := Find(b.kids, member.name);
    j < |b.kids| && Alike(member, b.kids[j])
  }

  lemma ObjectsAlike(a: Value, b: Value)
    requires a.kind == KObject && b.kind == KObject
    ensures Alike(a, b) <==> Found(a, b) && Found(b, a)
  {}

  ghost predicate Equivalent(a: Value, b: Value) {
    Coherent(a) && Coherent(b) && MeaningOf(a) == MeaningOf(b)
  }

  /** cJSON_Compare says yes exactly to coherent trees that denote the same value. */
  lemma {:induction false} AlikeIff(a: Value, b: Value)
    requires InRange(a) && InRange(b)
    ensures Alike(a, b) <==> Equivalent(a, b)
    decreases Size(a) + Size(b), 1
  {
    if a.kind == b.kind {
      match a.kind
      case KNumber => CompareDoubleIsEquality(a.number, b.number);
      case KArray => ArraysAlikeIff(a, b);
      case KObject => ObjectsAlikeIff(a, b);
      case _ =>
    }
  }

  lemma {:induction false} ArraysAlikeIff(a: Value, b: Value)
    requires InRange(a) && InRange(b) && a.kind == KArray && b.kind == KArray
    ensures Alike(a, b) <==> Equivalent(a, b)
    decreases Size(a) + Size(b), 0
  {
    forall i | 0 <= i < |a.kids| && i < |b.kids|
      ensures Alike(a.kids[i], b.kids[i]) <==> Equivalent(a.kids[i], b.kids[i])
    {
      AlikeIff(a.kids[i], b.kids[i]);
    }
    var ea, eb := MeaningOf(a).elements, MeaningOf(b).elements;
    assert forall i :: 0 <= i < |a.kids| ==> ea[i] == MeaningOf(a.kids[i]);
    assert forall i :: 0 <= i < |b.kids| ==> eb[i] == MeaningOf(b.kids[i]);
    if |ea| == |eb| && forall i :: 0 <= i < |ea| ==> ea[i] == eb[i] {
      assert ea == eb;
    }
  }

  lemma {:induction false} ObjectsAlikeIff(a: Value, b: Value)
    requires InRange(a) && InRange(b) && a.kind == KObject && b.kind == KObject
    ensures Alike(a, b) <==> Equivalent(a, b)
    decreases Size(a) + Size(b), 0
  {
    forall i, j | 0 <= i < |a.kids| && 0 <= j < |b.kids|
      ensures Alike(a.kids[i], b.kids[j]) <==> Equivalent(a.kids[i], b.kids[j])
      ensures Alike(b.kids[j], a.kids[i]) <==> Equivalent(b.kids[j], a.kids[i])
    {
      AlikeIff(a.kids[i], b.kids[j]);
      AlikeIff(b.kids[j], a.kids[i]);
    }
    ObjectsAlike(a, b);
    FoundIff(a, b);
    FoundIff(b, a);
    if Named(a.kids) && Named(b.kids) {
      ReflectedBothWays(a, b);
    }
  }

  predicate AllCoherent(vs: seq<Value>) {
    forall i :: 0 <= i < |vs| ==> Coherent(vs[i])
  }

  lemma FoundIff(a: Value, b: Value)
    requires a.kind == KObject && b.kind == KObject
    requires forall i, j :: 0 <= i < |a.kids| && 0 <= j < |b.kids| ==>
               (Alike(a.kids[i], b.kids[j]) <==> Equivalent(a.kids[i], b.kids[j]))
    ensures Found(a, b) ==> Named(a.kids) && AllCoherent(a.kids) && Reflected(a, b)
    ensures AllCoherent(a.kids) && AllCoherent(b.kids) && Reflected(a, b) ==> Found(a, b)
  {}

  // ----- what follows: an equivalence, blind to the order of members

  lemma AlikeSymmetric(a: Value, b: Value)
    requires InRange(a) && InRange(b)
    ensures Alike(a, b) <==> Alike(b, a)
  {
    AlikeIff(a, b);
    AlikeIff(b, a);
  }

  lemma AlikeTransitive(a: Value, b: Value, c: Value)
    requires InRange(a) && InRange(b) && InRange(c) && Alike(a, b) && Alike(b, c)
    ensures Alike(a, c)
  {
    AlikeIff(a, b);
    AlikeIff(b, c);
    AlikeIff(a, c);
  }

  /** A tree compares equal to a copy of itself exactly when it is coherent. */
  lemma AlikeItselfIff(a: Value)
    requires InRange(a)
    ensures Alike(a, a) <==> Coherent(a)
  {
    AlikeIff(a, a);
  }

  /** {"a":1,"a":2} does not. */
  lemma RepeatedKeyExample()
    ensures var one := Value(KNumber, 1, [], Some([LOWER_A]), []);
            var two := Value(KNumber, 2, [], Some([LOWER_A]), []);
            !Alike(Value(KObject, 0, [], None, [one, two]), Value(KObject, 0, [], None, [one, two]))
  {
    var one := Value(KNumber, 1, [], Some([LOWER_A]), []);
    var two := Value(KNumber, 2, [], Some([LOWER_A]), []);
    var v := Value(KObject, 0, [], None, [one, two]);
    AlikeItselfIff(v);
    assert v.kids[0].name == v.kids[1].name && MeaningOf(v.kids[0]) != MeaningOf(v.kids[1]);
  }

  /** With unique keys a search for a member's name finds that member. */
  lemma FindsItself(v: Value, x: Value)
    requires UniqueKeys(v) && v.kind == KObject && x in v.kids
    ensures var j := Find(v.kids, x.name); j < |v.kids| && v.kids[j] == x
  {
    var k :| 0 <= k < |v.kids| && v.kids[k] == x;
    FindFinds(v.kids, k);
  }

  lemma SameMembersReflect(v: Value, w: Value)
    requires UniqueKeys(w) && v.kind == KObject && w.kind == KObject && multiset(v.kids) == multiset(w.kids)
    ensures Reflected(v, w)
  {
    forall i | 0 <= i < |v.kids|
      ensures var j := Find(w.kids, v.kids[i].name);
              j < |w.kids| && MeaningOf(v.kids[i]) == MeaningOf(w.kids[j])
    {
      assert v.kids[i] in multiset(v.kids);
      FindsItself(w, v.kids[i]);
    }
  }

  /** The members of an object may stand in any order. */
  lemma MemberOrderIsIgnored(v: Value, w: Value)
    requires InRange(v) && InRange(w) && UniqueKeys(v) && UniqueKeys(w)
    requires v.kind == KObject && w.kind == KObject && multiset(v.kids) == multiset(w.kids)
    ensures Alike(v, w)
  {
    hide MeaningOf, Alike, Reflected, Find;
    UniqueKeysAreCoherent(v);
    UniqueKeysAreCoherent(w);
    SameMembersReflect(v, w);
    SameMembersReflect(w, v);
    ReflectedBothWays(v, w);
    AlikeIff(v, w);
  }
}
