/** cJSON_Compare and cJSON_Duplicate on the nodes themselves. */
module TreeOps {
  import opened Bytes
  import opened ChildList
  import opened Comparison
  import opened Wrappers

  /** Which nodes make up a tree. */
  datatype Tree = Tree(root: Node, kids: seq<Tree>)

  function RootAt(ts: seq<Tree>, i: nat): (n: Node?)
    ensures n == null <==> i >= |ts|
  {
    if i < |ts| then ts[i].root else null
  }

  ghost predicate Carries(n: Node, v: Value)
    reads n`kind, n`valueint, n`valuestring, n`name
  {
    n.kind == v.kind && n.valueint == v.number && n.valuestring == v.text && n.name == v.name
  }

  /** The nodes of t, linked through child and next, carry v; those under the root are in `below`. */
  ghost predicate Stores(t: Tree, v: Value, below: set<Node>)
    reads t.root`kind, t.root`valueint, t.root`valuestring, t.root`name, t.root`child, below
  {
    && Carries(t.root, v)
    && |t.kids| == |v.kids| && t.root.child == RootAt(t.kids, 0)
    && forall i :: 0 <= i < |t.kids| ==> StoredKid(t, v, below, i)
  }

  ghost predicate StoredKid(t: Tree, v: Value, below: set<Node>, i: nat)
    requires i < |t.kids| == |v.kids|
    reads below
  {
    && t.kids[i].root in below
    && t.kids[i].root.next == RootAt(t.kids, i + 1)
    && Stores(t.kids[i], v.kids[i], below)
  }

  /** Every node of t has a well-formed list of children: those of t. */
  ghost predicate AllLinked(t: Tree, below: set<Node>)
    reads t.root`child, t.root`kids, below
  {
    && |t.root.kids| == |t.kids|
    && (forall i :: 0 <= i < |t.kids| ==> t.root.kids[i] == t.kids[i].root && t.root.kids[i] in below)
    && t.root.Linked()
    && forall i :: 0 <= i < |t.kids| ==> AllLinked(t.kids[i], below)
  }

  lemma KidCarries(t: Tree, v: Value, below: set<Node>, i: nat)
    requires Stores(t, v, below) && i < |t.kids|
    ensures StoredKid(t, v, below, i) && Carries(t.kids[i].root, v.kids[i])
  {
    assert StoredKid(t, v, below, i);
    assert Stores(t.kids[i], v.kids[i], below);
  }

  /** get_object_item, case-sensitive. */
  method GetObjectItem(parent: Node, name: Option<bytes>, ghost t: Tree, ghost v: Value, ghost below: set<Node>)
    returns (item: Node?, ghost j: nat)
    requires t.root == parent && Stores(t, v, below)
    ensures j == Find(v.kids, name) && item == RootAt(t.kids, j)
  {
    j := 0;
    if name.None? {
      j := |v.kids|;
      return null, j;
    }
    item := parent.child;
    while item != null && item.name != None && item.name != name
      invariant j <= |t.kids| && item == RootAt(t.kids, j)
      invariant Find(v.kids, name) == j + Find(v.kids[j..], name)
      decreases |t.kids| - j
    {
      KidCarries(t, v, below, j);
      assert v.kids[j..][0] == v.kids[j];
      assert v.kids[j..][1..] == v.kids[j + 1..];
      item := item.next;
      j := j + 1;
    }
    if item != null {
      KidCarries(t, v, below, j);
      assert v.kids[j..][0] == v.kids[j];
    }
    if item == null || item.name == None {
      j := |v.kids|;
      return null, j;
    }
  }

  // ----- cJSON_Compare

  /**
   A tree and what it is known to hold.  Two of them compare as their values do when they share
   no node; when they do, the shortcut for one and the same node makes no difference to coherent
   values.
   */
  datatype View = View(t: Tree, v: Value, below: set<Node>)

  ghost predicate Shows(w: View, n: Node)
    reads w.t.root`kind, w.t.root`valueint, w.t.root`valuestring, w.t.root`name, w.t.root`child, w.below
  {
    w.t.root == n && Stores(w.t, w.v, w.below)
  }

  ghost predicate Sensible(v: Value) {
    InRange(v) && Coherent(v)
  }

  ghost predicate Apart(a: View, b: View) {
    || ({a.t.root} + a.below !! {b.t.root} + b.below)
    || (Sensible(a.v) && Sensible(b.v))
  }

  ghost function Kid(w: View, i: nat): View
    requires i < |w.t.kids| == |w.v.kids|
  {
    View(w.t.kids[i], w.v.kids[i], w.below)
  }

  lemma KidsApart(a: View, b: View, i: nat, j: nat)
    requires i < |a.t.kids| == |a.v.kids| && j < |b.t.kids| == |b.v.kids| && Apart(a, b)
    requires a.v.kind == b.v.kind == KArray || a.v.kind == b.v.kind == KObject
    requires a.t.kids[i].root in a.below && b.t.kids[j].root in b.below
    ensures Apart(Kid(a, i), Kid(b, j))
  {}

  lemma SameRootSameValue(a: View, b: View, n: Node)
    requires Shows(a, n) && Shows(b, n)
    ensures a.v == b.v
    decreases a.t
  {
    var i := 0;
    assert RootAt(a.t.kids, 0) == RootAt(b.t.kids, 0);
    while i < |a.t.kids| && i < |b.t.kids|
      invariant i <= |a.t.kids| && i <= |b.t.kids|
      invariant RootAt(a.t.kids, i) == RootAt(b.t.kids, i)
      invariant a.v.kids[..i] == b.v.kids[..i]
    {
      assert StoredKid(a.t, a.v, a.below, i) && StoredKid(b.t, b.v, b.below, i);
      SameRootSameValue(Kid(a, i), Kid(b, i), a.t.kids[i].root);
      assert a.v.kids[..i + 1] == a.v.kids[..i] + [a.v.kids[i]];
      assert b.v.kids[..i + 1] == b.v.kids[..i] + [b.v.kids[i]];
      i := i + 1;
    }
    assert a.v.kids == a.v.kids[..i] && b.v.kids == b.v.kids[..i];
  }

  /** cJSON_Compare, case-sensitive. */
  method Compare(a: Node?, b: Node?, ghost va: View, ghost vb: View) returns (equal: bool)
    requires a != null ==> Shows(va, a)
    requires b != null ==> Shows(vb, b)
    ensures a == null || b == null ==> !equal
    ensures a != null && a == b ==> equal
    ensures a != null && b != null && Apart(va, vb) ==> equal == Alike(va.v, vb.v)
    decreases Size(va.v) + Size(vb.v), 1
  {
    if a == null || b == null || a.kind != b.kind {
      return false;
    }
    if a == b {
      SameNodeIsAlike(va, vb, a);
      return true;
    }
    match a.kind
    case KNumber =>
      return CompareDouble(a.valueint as real, b.valueint as real);
    case KString =>
      return a.valuestring == b.valuestring;
    case KArray =>
      equal := CompareElements(a, b, va, vb);
    case KObject =>
      equal := CompareMembers(a, b, va, vb);
      if equal {
        equal := CompareMembers(b, a, vb, va);
      }
    case _ =>
      return true;
  }

  lemma SameNodeIsAlike(a: View, b: View, n: Node)
    requires Shows(a, n) && Shows(b, n)
    ensures Apart(a, b) ==> Alike(a.v, b.v)
  {
    SameRootSameValue(a, b, n);
    assert n in {a.t.root} + a.below && n in {b.t.root} + b.below;
    if Apart(a, b) {
      AlikeItselfIff(a.v);
    }
  }

  /** Child with child, for as long as both arrays have one. */
  method CompareElements(a: Node, b: Node, ghost va: View, ghost vb: View) returns (equal: bool)
    requires Shows(va, a) && Shows(vb, b) && a.kind == KArray && b.kind == KArray
    ensures Apart(va, vb) ==> equal == Alike(va.v, vb.v)
    decreases Size(va.v) + Size(vb.v), 0
  {
    var x, y := a.child, b.child;
    ghost var i := 0;
    while x != null && y != null
      invariant 0 <= i <= |va.t.kids| && i <= |vb.t.kids| && x == RootAt(va.t.kids, i) && y == RootAt(vb.t.kids, i)
      invariant Apart(va, vb) ==> forall k :: 0 <= k < i ==> Alike(va.v.kids[k], vb.v.kids[k])
      decreases |va.t.kids| - i
    {
      equal := CompareKids(x, y, va, vb, i, i);
      if !equal {
        return false;
      }
      x, y := x.next, y.next;
      i := i + 1;
    }
    return x == y;
  }

  /** The i-th child of one node and the j-th of another. */
  method CompareKids(x: Node, y: Node, ghost va: View, ghost vb: View, ghost i: nat, ghost j: nat) returns (equal: bool)
    requires Stores(va.t, va.v, va.below) && Stores(vb.t, vb.v, vb.below)
    requires va.v.kind == vb.v.kind == KArray || va.v.kind == vb.v.kind == KObject
    requires i < |va.t.kids| && x == va.t.kids[i].root && j < |vb.t.kids| && y == vb.t.kids[j].root
    ensures Apart(va, vb) ==> equal == Alike(va.v.kids[i], vb.v.kids[j])
    ensures x.next == RootAt(va.t.kids, i + 1) && y.next == RootAt(vb.t.kids, j + 1)
    decreases Size(va.v) + Size(vb.v), 0, 0
  {
    assert StoredKid(va.t, va.v, va.below, i) && StoredKid(vb.t, vb.v, vb.below, j);
    if Apart(va, vb) {
      KidsApart(va, vb, i, j);
    }
    equal := Compare(x, y, Kid(va, i), Kid(vb, j));
  }

  /** One loop of the object case: every member of a is found in b and compares equal. */
  method CompareMembers(a: Node, b: Node, ghost va: View, ghost vb: View) returns (equal: bool)
    requires Shows(va, a) && Shows(vb, b) && a.kind == KObject && b.kind == KObject
    ensures Apart(va, vb) ==> equal == Found(va.v, vb.v)
    decreases Size(va.v) + Size(vb.v), 0
  {
    var x := a.child;
    ghost var i := 0;
    while x != null
      invariant 0 <= i <= |va.t.kids| && x == RootAt(va.t.kids, i)
      invariant Apart(va, vb) ==> forall k :: 0 <= k < i ==> FoundIn(va.v.kids[k], vb.v)
      decreases |va.t.kids| - i
    {
      KidCarries(va.t, va.v, va.below, i);
      var y, j := GetObjectItem(b, x.name, vb.t, vb.v, vb.below);
      if y == null {
        return false;
      }
      equal := CompareKids(x, y, va, vb, i, j);
      assert Apart(va, vb) ==> equal == FoundIn(va.v.kids[i], vb.v);
      if !equal {
        return false;
      }
      x := x.next;
      i := i + 1;
    }
    return true;
  }

  // ----- cJSON_Duplicate

  lemma {:induction false} StoresMore(t: Tree, v: Value, below: set<Node>, more: set<Node>)
    requires Stores(t, v, below) && below <= more
    ensures Stores(t, v, more)
    decreases t
  {
    forall i | 0 <= i < |t.kids|
      ensures StoredKid(t, v, more, i)
    {
      assert StoredKid(t, v, below, i);
      StoresMore(t.kids[i], v.kids[i], below, more);
    }
  }

  lemma {:induction false} AllLinkedMore(t: Tree, below: set<Node>, more: set<Node>)
    requires AllLinked(t, below) && below <= more
    ensures AllLinked(t, more)
    decreases t
  {
    forall i | 0 <= i < |t.kids|
      ensures AllLinked(t.kids[i], more)
    {
      AllLinkedMore(t.kids[i], below, more);
    }
  }

  function Roots(us: seq<View>): (ns: seq<Node>)
    ensures |ns| == |us| && forall k :: 0 <= k < |us| ==> ns[k] == us[k].t.root
  {
    seq(|us|, k requires 0 <= k < |us| => us[k].t.root)
  }

  function Trees(us: seq<View>): (ts: seq<Tree>)
    ensures |ts| == |us| && forall k :: 0 <= k < |us| ==> ts[k] == us[k].t
  {
    seq(|us|, k requires 0 <= k < |us| => us[k].t)
  }

  function Values(us: seq<View>): (vs: seq<Value>)
    ensures |vs| == |us| && forall k :: 0 <= k < |us| ==> vs[k] == us[k].v
  {
    seq(|us|, k requires 0 <= k < |us| => us[k].v)
  }

  /** Views of distinct trees: no root lies in another tree, all of them lie in `all`. */
  ghost predicate Separate(us: seq<View>, all: set<Node>) {
    && (forall k :: 0 <= k < |us| ==> us[k].t.root in all && us[k].below <= all)
    && (forall j, k :: 0 <= j < |us| && 0 <= k < |us| ==> us[j].t.root !in us[k].below)
    && Distinct(Roots(us))
  }

  lemma SeparateMore(us: seq<View>, u: View, all: set<Node>)
    requires Separate(us, all) && u.t.root !in all && u.t.root !in u.below && u.below !! all
    ensures Separate(us + [u], all + {u.t.root} + u.below)
    ensures forall k :: 0 <= k < |us| ==> us[k].t.root != u.t.root && us[k].t.root in all && u.t.root !in us[k].below
    ensures forall k :: 0 <= k < |us| ==> us[|us| - 1].t.root !in us[k].below && us[k].below <= all
    ensures forall k :: 0 <= k < |us| - 1 ==> us[k].t.root != us[|us| - 1].t.root
  {
    assert forall k :: 0 <= k < |us| ==> Roots(us)[k] == us[k].t.root;
  }

  /** The k-th copy, linked to its neighbours. */
  ghost predicate Chained(us: seq<View>, all: set<Node>, k: nat)
    requires k < |us|
    reads all
  {
    && us[k].t.root in all && us[k].below <= all && Shows(us[k], us[k].t.root)
    && AllLinked(us[k].t, us[k].below)
    && us[k].t.root.next == RootAt(Trees(us), k + 1)
    && (k > 0 ==> us[k].t.root.prev == us[k - 1].t.root)
  }

  /** The copies made so far; the head's prev is still to be set. */
  ghost predicate Copies(root: Node, us: seq<View>, all: set<Node>)
    reads root, all
  {
    && Separate(us, all) && root !in all && root.child == RootAt(Trees(us), 0)
    && root.next == null && root.prev == null
    && forall k :: 0 <= k < |us| ==> Chained(us, all, k)
  }

  lemma ShownKids(w: View, n: Node)
    requires Shows(w, n)
    ensures |w.t.kids| == |w.v.kids| && n.child == RootAt(w.t.kids, 0)
  {}

  lemma ShownKid(w: View, n: Node, i: nat)
    requires Shows(w, n) && i < |w.t.kids| == |w.v.kids|
    ensures StoredKid(w.t, w.v, w.below, i) && Shows(Kid(w, i), w.t.kids[i].root)
  {
    assert StoredKid(w.t, w.v, w.below, i);
  }

  lemma NoneCopied(root: Node)
    requires root.child == null && root.next == null && root.prev == null
    ensures Copies(root, [], {})
  {}

  /** A new node that holds what the item holds, and its children too when asked; it shares no node with it. */
  method Duplicate(item: Node?, recurse: bool, ghost w: View) returns (copy: Node?, ghost c: View)
    requires item != null ==> Shows(w, item)
    ensures item == null ==> copy == null
    ensures item != null ==>
              && copy != null && fresh(copy) && fresh(c.below) && copy !in c.below
              && Shows(c, copy) && c.v == (if recurse then w.v else w.v.(kids := []))
              && copy.next == null && copy.prev == null && AllLinked(c.t, c.below)
    decreases Size(w.v)
  {
    c := w;
    if item == null {
      return null, c;
    }
    var newitem := new Node(item.kind);
    newitem.valueint, newitem.valuestring, newitem.name := item.valueint, item.valuestring, item.name;
    if !recurse {
      return newitem, View(Tree(newitem, []), w.v.(kids := []), {});
    }
    c := DuplicateChildren(item, newitem, w);
    return newitem, c;
  }

  /** The loop over the children, each copied in full, and the end of the list. */
  method DuplicateChildren(item: Node, newitem: Node, ghost w: View) returns (ghost c: View)
    requires Shows(w, item) && Carries(newitem, w.v) && newitem != item && newitem !in w.below
    requires newitem.child == null && newitem.next == null && newitem.prev == null
    modifies newitem`child, newitem`kids
    ensures fresh(c.below) && c.v == w.v && Shows(c, newitem) && AllLinked(c.t, c.below)
    decreases Size(w.v), 0
  {
    hide Stores, Chained, AllLinked;
    ShownKids(w, item);
    var child := item.child;
    NoneCopied(newitem);
    var next: Node?, newchild: Node? := null, null;
    ghost var us: seq<View>, all: set<Node> := [], {};
    while child != null
      invariant |us| <= |w.t.kids| && child == RootAt(w.t.kids, |us|) && Values(us) == w.v.kids[..|us|]
      invariant fresh(all) && Copies(newitem, us, all)
      invariant next == newchild == (if us == [] then null else us[|us| - 1].t.root)
      decreases |w.t.kids| - |us|
    {
      ShownKid(w, item, |us|);
      ghost var u;
      newchild, u := Duplicate(child, true, Kid(w, |us|));
      LinkCopy(newitem, next, newchild, us, u, all);
      next := newchild;
      us, all := us + [u], all + {newchild} + u.below;
      child := child.next;
    }
    CloseList(newitem, newchild, us, all, w.v);
    c := View(Tree(newitem, Trees(us)), w.v, all);
  }

  /** The copy of a child goes behind the last one, or becomes the first. */
  method LinkCopy(newitem: Node, next: Node?, newchild: Node, ghost us: seq<View>, ghost u: View, ghost all: set<Node>)
    requires Copies(newitem, us, all) && next == (if us == [] then null else us[|us| - 1].t.root)
    requires Shows(u, newchild) && AllLinked(u.t, u.below) && newchild !in u.below && newchild.next == null
    requires newchild != newitem && newitem !in u.below && newchild !in all && u.below !! all
    modifies newitem`child, Self(next)`next, newchild`prev
    ensures Copies(newitem, us + [u], all + {newchild} + u.below)
    ensures Values(us + [u]) == Values(us) + [u.v]
  {
    hide Separate;
    SeparateMore(us, u, all);
    if next != null {
      next.next := newchild;
      newchild.prev := next;
    } else {
      newitem.child := newchild;
    }
    ghost var more, whole := us + [u], all + {newchild} + u.below;
    forall k | 0 <= k < |more|
      ensures Chained(more, whole, k)
    {
      assert k < |us| ==> old(Chained(us, all, k));
    }
  }

  /** The head's prev is set to the last copy. */
  method TieHead(newitem: Node, newchild: Node?, ghost us: seq<View>, ghost all: set<Node>)
    requires Copies(newitem, us, all)
    modifies all`prev
    ensures Copies(newitem, us, all) && (us != [] ==> us[0].t.root.prev == newchild)
  {
    hide Stores, AllLinked;
    if newitem.child != null {
      newitem.child.prev := newchild;
    }
    forall k | 0 <= k < |us|
      ensures Chained(us, all, k)
    {
      assert old(Chained(us, all, k));
    }
  }

  /** The head is tied to the last copy, and the copies are the children. */
  method CloseList(newitem: Node, newchild: Node?, ghost us: seq<View>, ghost all: set<Node>, ghost v: Value)
    requires Copies(newitem, us, all) && newchild == (if us == [] then null else us[|us| - 1].t.root)
    requires Carries(newitem, v) && v.kids == Values(us)
    modifies newitem`kids, all`prev
    ensures AllLinked(Tree(newitem, Trees(us)), all) && Stores(Tree(newitem, Trees(us)), v, all)
  {
    hide Stores, AllLinked;
    TieHead(newitem, newchild, us, all);
    newitem.kids := Roots(us);
    forall k | 0 <= k < |us|
      ensures Hangs(newitem.kids, k) && StoredKid(Tree(newitem, Trees(us)), v, all, k)
      ensures AllLinked(us[k].t, all)
    {
      assert Chained(us, all, k);
      AllLinkedMore(us[k].t, us[k].below, all);
      StoresMore(us[k].t, us[k].v, us[k].below, all);
    }
    WholeStored(Tree(newitem, Trees(us)), v, all);
    WholeLinked(Tree(newitem, Trees(us)), all);
  }

  lemma WholeStored(t: Tree, v: Value, below: set<Node>)
    requires Carries(t.root, v) && |t.kids| == |v.kids| && t.root.child == RootAt(t.kids, 0)
    requires forall i :: 0 <= i < |t.kids| ==> StoredKid(t, v, below, i)
    ensures Stores(t, v, below)
  {}

  lemma WholeLinked(t: Tree, below: set<Node>)
    requires |t.root.kids| == |t.kids| && t.root.Linked()
    requires forall i :: 0 <= i < |t.kids| ==> t.root.kids[i] == t.kids[i].root && t.root.kids[i] in below
    requires forall i :: 0 <= i < |t.kids| ==> AllLinked(t.kids[i], below)
    ensures AllLinked(t, below)
  {}

  /** A full copy shares no node with its source, and compares equal to it exactly when the source is coherent. */
  method CompareWithCopy(item: Node, ghost w: View) returns (copy: Node, ghost c: View, equal: bool)
    requires Shows(w, item) && InRange(w.v)
    ensures fresh(copy) && fresh(c.below) && Shows(c, copy) && AllLinked(c.t, c.below) && Shows(w, item)
    ensures equal <==> Coherent(w.v)
  {
    var d: Node?;
    d, c := Duplicate(item, true, w);
    copy := d;
    equal := Compare(item, copy, w, c);
    AlikeItselfIff(w.v);
  }
}
