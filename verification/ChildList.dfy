/**
 The children of a cJSON node: a list linked through next and prev, in which the head's prev is
 the tail, and the calls that edit it.
 */
module ChildList {
  import opened Bytes
  import opened Wrappers

  datatype Kind = KFalse | KTrue | KNull | KNumber | KString | KArray | KObject

  class Node {
    var next: Node?
    var prev: Node?
    var child: Node?
    var kind: Kind
    var valueint: int
    var valuestring: bytes
    var name: Option<bytes>
    ghost var kids: seq<Node>

    /** cJSON_New_Item, with the type it is given next. */
    constructor (kind: Kind)
      ensures next == null && prev == null && child == null && kids == []
      ensures this.kind == kind && valueint == 0 && valuestring == [] && name == None
    {
      next, prev, child := null, null, null;
      this.kind := kind;
      valueint, valuestring, name := 0, [], None;
      kids := [];
    }

    /** The pointers hold exactly the children `kids`, in that order. */
    ghost predicate Linked()
      reads `child, `kids, kids`next, kids`prev
    {
      Distinct(kids) && this !in kids && child == First(kids) && forall i :: 0 <= i < |kids| ==> Hangs(kids, i)
    }
  }

  /** The pointers of the i-th child: forward to null, back to the one before, from the first to the last. */
  ghost predicate Hangs(kids: seq<Node>, i: nat)
    requires i < |kids|
    reads kids`next, kids`prev
  {
    && kids[i].next == From(kids, i + 1)
    && kids[i].prev == (if i == 0 then kids[|kids| - 1] else kids[i - 1])
  }

  predicate Distinct(s: seq<Node>) {
    forall i, j :: 0 <= i < j < |s| ==> s[i] != s[j]
  }

  function From(s: seq<Node>, i: nat): (n: Node?)
    ensures n == null <==> i >= |s|
  {
    if i < |s| then s[i] else null
  }

  function First(s: seq<Node>): Node? {
    From(s, 0)
  }

  function Self(n: Node?): set<Node> {
    if n == null then {} else {n}
  }

  ghost function Below(n: Node?): set<Node>
    reads n
  {
    if n == null then {} else set k | k in n.kids
  }

  // ----- reading

  /** cJSON_GetArraySize */
  method GetArraySize(parent: Node?) returns (size: nat)
    requires parent != null ==> parent.Linked()
    ensures size == if parent == null then 0 else |parent.kids|
  {
    size := 0;
    if parent == null {
      return;
    }
    var current := parent.child;
    while current != null
      invariant size <= |parent.kids| && current == From(parent.kids, size)
      decreases |parent.kids| - size
    {
      assert Hangs(parent.kids, size);
      size := size + 1;
      current := current.next;
    }
  }

  /** get_array_item: walks next from the first child. */
  method GetArrayItem(parent: Node?, index: nat) returns (item: Node?)
    requires parent != null ==> parent.Linked()
    ensures item == if parent == null then null else From(parent.kids, index)
  {
    if parent == null {
      return null;
    }
    item := parent.child;
    var left: nat := index;
    while item != null && left > 0
      invariant left <= index && item == From(parent.kids, index - left)
      decreases left
    {
      assert Hangs(parent.kids, index - left);
      left := left - 1;
      item := item.next;
    }
  }

  // ----- editing

  method AddItemToArray(parent: Node?, item: Node?) returns (ok: bool)
    requires parent != null ==> parent.Linked()
    requires parent != null && item != null && item != parent ==>
               item !in parent.kids && (parent.kids != [] ==> item.next == null)
    modifies Self(parent)`child, Self(parent)`kids, Self(item)`next, Self(item)`prev, Below(parent)`next,
          Below(parent)`prev
    ensures ok <==> parent != null && item != null && item != parent
    ensures parent != null ==> parent.Linked()
    ensures ok ==> parent.kids == old(parent.kids) + [item]
    ensures !ok && parent != null ==> parent.kids == old(parent.kids)
    ensures !ok && item != null ==> item.next == old(item.next)
  {
    if item == null || parent == null || parent == item {
      return false;
    }
    ghost var was := parent.kids;
    var child := parent.child;
    if child == null {
      parent.child := item;
      item.prev := item;
      item.next := null;
    } else if child.prev != null {
      assert Hangs(was, 0) && child.prev == was[|was| - 1];
      SuffixObject(child.prev, item);
      parent.child.prev := item;
    }
    parent.kids := was + [item];
    forall i | 0 <= i < |parent.kids|
      ensures Hangs(parent.kids, i)
    {
      if i < |was| {
        assert old(Hangs(was, i));
        assert i + 1 < |was| ==> was[i] != was[|was| - 1];
      }
    }
    return true;
  }

  method SuffixObject(prev: Node, item: Node)
    modifies prev`next, item`prev
    ensures prev.next == item && item.prev == prev
  {
    prev.next := item;
    item.prev := prev;
  }

  /** cJSON_DetachItemViaPointer: the item must be one of the children, here the one at k. */
  method DetachItemViaPointer(parent: Node?, item: Node?, ghost k: nat) returns (detached: Node?)
    requires parent != null ==> parent.Linked()
    requires parent != null && item != null ==> k < |parent.kids| && parent.kids[k] == item
    modifies Self(parent)`child, Self(parent)`kids, Below(parent)`next, Below(parent)`prev
    ensures detached == if parent == null then null else item
    ensures parent != null ==> parent.Linked()
    ensures parent != null && item == null ==> parent.kids == old(parent.kids)
    ensures parent != null && item != null ==>
              && parent.kids == RemoveAt(old(parent.kids), k)
              && item.next == null && item.prev == null
  {
    if parent == null || item == null {
      return null;
    }
    ghost var was := parent.kids;
    assert Hangs(was, k);
    if k > 0 {
      assert Hangs(was, k - 1);
      assert Hangs(was, 0);
    }
    if k + 1 < |was| {
      assert Hangs(was, k + 1);
    }
    if item != parent.child {
      item.prev.next := item.next;
    }
    if item.next != null {
      item.next.prev := item.prev;
    }
    if item == parent.child {
      parent.child := item.next;
    } else if item.next == null {
      parent.child.prev := item.prev;
    }
    item.prev := null;
    item.next := null;
    parent.kids := RemoveAt(was, k);
    forall i | 0 <= i < |parent.kids|
      ensures Hangs(parent.kids, i)
    {
      assert old(Hangs(was, if i < k then i else i + 1));
    }
    return item;
  }

  function RemoveAt(s: seq<Node>, k: nat): (r: seq<Node>)
    requires k < |s|
    ensures |r| == |s| - 1
    ensures forall i :: 0 <= i < k ==> r[i] == s[i]
    ensures forall i :: k <= i < |r| ==> r[i] == s[i + 1]
  {
    s[..k] + s[k + 1..]
  }

  /** cJSON_DetachItemFromArray */
  method DetachItemFromArray(parent: Node?, which: int) returns (detached: Node?)
    requires parent != null ==> parent.Linked()
    modifies Self(parent)`child, Self(parent)`kids, Below(parent)`next, Below(parent)`prev
    ensures detached == if parent == null || which < 0 then null else old(From(parent.kids, which))
    ensures parent != null ==>
              && parent.Linked()
              && parent.kids == if 0 <= which < |old(parent.kids)| then RemoveAt(old(parent.kids), which)
                    else old(parent.kids)
    ensures detached != null ==> detached.next == null && detached.prev == null
  {
    if which < 0 {
      return null;
    }
    var item := GetArrayItem(parent, which);
    detached := DetachItemViaPointer(parent, item, which);
  }

  /** cJSON_InsertItemInArray: an index behind the last child appends. */
  method InsertItemInArray(parent: Node?, which: int, newitem: Node?) returns (ok: bool)
    requires parent != null ==> parent.Linked()
    requires parent != null && newitem != null && newitem != parent && which >= 0 ==>
               newitem !in parent.kids && (0 < |parent.kids| <= which ==> newitem.next == null)
    requires parent != null && newitem == parent ==> which >= |parent.kids|
    modifies Self(parent)`child, Self(parent)`kids, Self(newitem)`next, Self(newitem)`prev
    modifies Below(parent)`next, Below(parent)`prev
    ensures ok <==> which >= 0 && newitem != null && parent != null && newitem != parent
    ensures parent != null ==>
              && parent.Linked()
              && parent.kids == if ok then InsertAt(old(parent.kids), which, newitem) else old(parent.kids)
    ensures !ok && newitem != null ==> newitem.next == old(newitem.next)
  {
    if which < 0 || newitem == null {
      return false;
    }
    var afterInserted := GetArrayItem(parent, which);
    if afterInserted == null {
      ok := AddItemToArray(parent, newitem);
      return;
    }
    ghost var was := parent.kids;
    assert Hangs(was, which);
    if which > 0 {
      assert Hangs(was, which - 1);
    }
    if afterInserted != parent.child && afterInserted.prev == null {
      return false;
    }
    newitem.next := afterInserted;
    newitem.prev := afterInserted.prev;
    afterInserted.prev := newitem;
    if afterInserted == parent.child {
      parent.child := newitem;
    } else {
      newitem.prev.next := newitem;
    }
    parent.kids := InsertAt(was, which, newitem);
    forall i | 0 <= i < |parent.kids|
      ensures Hangs(parent.kids, i)
    {
      assert i != which ==> old(Hangs(was, if i < which then i else i - 1));
    }
    return true;
  }

  function InsertAt(s: seq<Node>, k: nat, n: Node): (r: seq<Node>)
    ensures |r| == |s| + 1
    ensures k >= |s| ==> r == s + [n]
    ensures k < |s| ==>
              && (forall i :: 0 <= i < k ==> r[i] == s[i]) && r[k] == n
              && (forall i :: k < i < |r| ==> r[i] == s[i - 1])
  {
    if k < |s| then s[..k] + [n] + s[k..] else s + [n]
  }

  /** cJSON_ReplaceItemViaPointer: the replacement takes the place of the k-th child, which is let go. */
  method ReplaceItemViaPointer(parent: Node?, item: Node?, replacement: Node?, ghost k: nat) returns (ok: bool)
    requires parent != null ==> parent.Linked()
    requires parent != null && item != null && replacement != null ==> k < |parent.kids| && parent.kids[k] == item
    requires parent != null && item != null && replacement != null && replacement != item ==>
               replacement != parent && replacement !in parent.kids
    modifies Self(parent)`child, Self(parent)`kids, Self(replacement)`next, Self(replacement)`prev
    modifies Below(parent)`next, Below(parent)`prev
    ensures ok <==> parent != null && item != null && replacement != null
    ensures parent != null ==> parent.Linked()
    ensures !ok && parent != null ==> parent.kids == old(parent.kids)
    ensures !ok && replacement != null ==> replacement.next == old(replacement.next)
    ensures ok ==> parent.kids == old(parent.kids)[k := replacement]
    ensures ok && replacement != item ==> item.next == null && item.prev == null
  {
    if parent == null || item == null || replacement == null || parent.child == null {
      return false;
    }
    if replacement == item {
      return true;
    }
    ghost var was := parent.kids;
    assert Hangs(was, k) && Hangs(was, 0);
    if k + 1 < |was| {
      assert Hangs(was, k + 1);
    }
    replacement.next := item.next;
    replacement.prev := item.prev;
    if replacement.next != null {
      replacement.next.prev := replacement;
    }
    if parent.child == item {
      if parent.child.prev == parent.child {
        replacement.prev := replacement;
      }
      parent.child := replacement;
    } else {
      if replacement.prev != null {
        replacement.prev.next := replacement;
      }
      if replacement.next == null {
        parent.child.prev := replacement;
      }
    }
    item.next := null;
    item.prev := null;
    parent.kids := was[k := replacement];
    forall i | 0 <= i < |parent.kids|
      ensures Hangs(parent.kids, i)
    {
      assert old(Hangs(was, i));
    }
    return true;
  }

  /** cJSON_ReplaceItemInArray */
  method ReplaceItemInArray(parent: Node?, which: int, newitem: Node?) returns (ok: bool)
    requires parent != null ==> parent.Linked()
    requires parent != null && newitem != null && 0 <= which < |parent.kids| && newitem != parent.kids[which] ==>
               newitem != parent && newitem !in parent.kids
    modifies Self(parent)`child, Self(parent)`kids, Self(newitem)`next, Self(newitem)`prev
    modifies Below(parent)`next, Below(parent)`prev
    ensures ok <==> parent != null && newitem != null && 0 <= which < |old(parent.kids)|
    ensures parent != null ==>
              parent.Linked() && parent.kids == if ok then old(parent.kids)[which := newitem] else old(parent.kids)
    ensures ok && newitem != old(parent.kids)[which] ==> old(parent.kids)[which].next == null
    ensures !ok && newitem != null ==> newitem.next == old(newitem.next)
  {
    if which < 0 {
      return false;
    }
    var item := GetArrayItem(parent, which);
    ok := ReplaceItemViaPointer(parent, item, newitem, which);
  }

  // ----- the children are what the pointers say

  /** Any sequence that starts at child and follows next to the end is the sequence of the children. */
  lemma KidsAreTheChain(parent: Node, chain: seq<Node>)
    requires parent.Linked() && parent.child == First(chain)
    requires forall i :: 0 <= i < |chain| ==> chain[i].next == From(chain, i + 1)
    ensures chain == parent.kids
  {
    var i := 0;
    while i < |chain| && i < |parent.kids|
      invariant 0 <= i <= |chain| && i <= |parent.kids| && chain[..i] == parent.kids[..i]
      invariant From(chain, i) == From(parent.kids, i)
    {
      assert Hangs(parent.kids, i);
      assert chain[..i + 1] == chain[..i] + [chain[i]];
      assert parent.kids[..i + 1] == parent.kids[..i] + [parent.kids[i]];
      i := i + 1;
    }
    assert chain == chain[..i] && parent.kids == parent.kids[..i];
  }

  // ----- any sequence of calls

  datatype Edit = Append(n: Node) | Detach(k: int) | Insert(k: int, n: Node) | Replace(k: int, n: Node)

  /** What a call does to the sequence of the children; an index out of range changes nothing. */
  function Edited(s: seq<Node>, e: Edit): seq<Node> {
    match e
    case Append(n) => s + [n]
    case Detach(k) => if 0 <= k < |s| then RemoveAt(s, k) else s
    case Insert(k, n) => if k >= 0 then InsertAt(s, k, n) else s
    case Replace(k, n) => if 0 <= k < |s| then s[k := n] else s
  }

  function EditedAll(s: seq<Node>, edits: seq<Edit>): seq<Node>
    decreases |edits|
  {
    if edits == [] then s else EditedAll(Edited(s, edits[0]), edits[1..])
  }

  function Brings(e: Edit): Node? {
    if e.Detach? then null else e.n
  }

  /** No call brings a node that is a child already, or the parent itself. */
  predicate Orderly(parent: Node, s: seq<Node>, edits: seq<Edit>)
    decreases |edits|
  {
    edits != [] ==>
      && Brings(edits[0]) !in s && Brings(edits[0]) != parent
      && Orderly(parent, Edited(s, edits[0]), edits[1..])
  }

  /** Nodes that are not children now are not linked to anything behind them. */
  ghost predicate Loose(parent: Node, pool: set<Node>)
    reads parent, pool
  {
    (forall n :: n in pool && n !in parent.kids ==> n.next == null) && (forall n :: n in parent.kids ==> n in pool)
  }

  method Perform(parent: Node, e: Edit, ghost pool: set<Node>)
    requires parent.Linked() && Loose(parent, pool) && parent !in pool
    requires Brings(e) !in parent.kids && Brings(e) != parent && (e.Detach? || e.n in pool)
    modifies parent`child, parent`kids, pool`next, pool`prev
    ensures parent.Linked() && Loose(parent, pool)
    ensures parent.kids == Edited(old(parent.kids), e)
  {
    match e {
      case Append(n) =>
        var _ := AddItemToArray(parent, n);
      case Detach(k) =>
        var _ := DetachItemFromArray(parent, k);
      case Insert(k, n) =>
        var _ := InsertItemInArray(parent, k, n);
      case Replace(k, n) =>
        ghost var was := parent.kids;
        var ok := ReplaceItemInArray(parent, k, n);
        assert forall m :: m in pool && m !in was ==> m.next == null || (ok && m == n);
        if ok {
          OnlyOneLeaves(was, k, n);
        }
    }
  }

  lemma OnlyOneLeaves(s: seq<Node>, k: nat, n: Node)
    requires k < |s|
    ensures forall m :: m in s && m !in s[k := n] ==> m == s[k]
    ensures forall m :: m in s[k := n] ==> m in s || m == n
  {
    forall m | m in s && m !in s[k := n]
      ensures m == s[k]
    {
      var j :| 0 <= j < |s| && s[j] == m;
      assert s[k := n][j] == if j == k then n else m;
    }
  }

  /** Every run of edits keeps the list well formed and edits the sequence of the children. */
  method PerformAll(parent: Node, edits: seq<Edit>, ghost pool: set<Node>)
    requires parent.Linked() && Loose(parent, pool) && parent !in pool
    requires Orderly(parent, parent.kids, edits) && forall e :: e in edits ==> e.Detach? || e.n in pool
    modifies parent`child, parent`kids, pool`next, pool`prev
    ensures parent.Linked() && Loose(parent, pool)
    ensures parent.kids == EditedAll(old(parent.kids), edits)
  {
    var left := edits;
    while left != []
      invariant parent.Linked() && Loose(parent, pool)
      invariant Orderly(parent, parent.kids, left) && forall e :: e in left ==> e in edits
      invariant EditedAll(parent.kids, left) == EditedAll(old(parent.kids), edits)
      decreases |left|
    {
      assert left[0] in left;
      Perform(parent, left[0], pool);
      left := left[1..];
    }
  }
}
