/**
 The far side of the MAVLink mission protocol: the vehicle, which keeps one list per mission type,
 and the channel.  Messages to the vehicle arrive in order or not at all; messages to the ground
 may be lost, overtake one another and, acknowledgements apart, be repeated.
 */
module Vehicle {
  import opened Wrappers

  datatype MissionItem = MissionItem(
    seqNo: nat, frame: int, command: int, param1: real, param2: real, param3: real, param4: real,
    x: int, y: int, z: real, missionType: nat, autocontinue: int, current: int)

  const ACCEPTED: nat := 0

  datatype ToVehicle =
    | Count(count: nat, missionType: nat)
    | ItemInt(item: MissionItem)
    | RequestList(missionType: nat)
    | RequestItem(seqNo: nat, missionType: nat)
    | ClearAll(missionType: nat)
    | DownloadAck(missionType: nat)

  datatype ToGround =
    | Request(seqNo: nat)
    | Ack(kind: nat, missionType: nat)
    | CountIs(count: nat, missionType: nat)
    | ItemIs(item: MissionItem)

  /** An upload the vehicle is receiving. */
  datatype Upload = Upload(missionType: nat, count: nat, staged: map<nat, MissionItem>)

  datatype World = World(
    toVehicle: seq<ToVehicle>,
    toGround: seq<ToGround>,
    open: Option<Upload>,
    stored: map<nat, seq<MissionItem>>)

  /** What may happen next.  Take's parameters say what a vehicle makes of a clear. */
  datatype Event =
    | Wait
    | Elapse(ticks: nat)
    | Take(kept: nat, ack: nat)
    | Lose(i: nat)
    | Ask(seqNo: nat)
    | Accept
    | Refuse(kind: nat, missionType: nat)
    | Drop(i: nat)
    | Repeat(i: nat)
    | Deliver(i: nat)
    | Noise(message: ToGround)

  function Held(w: World, m: nat): seq<MissionItem> {
    if m in w.stored then w.stored[m] else []
  }

  function Removed<T>(s: seq<T>, i: nat): (r: seq<T>)
    requires i < |s|
    ensures |r| == |s| - 1
    ensures forall j :: 0 <= j < i ==> r[j] == s[j]
    ensures forall j :: i <= j < |r| ==> r[j] == s[j + 1]
  {
    s[..i] + s[i + 1..]
  }

  function Said(w: World, m: ToGround): World {
    w.(toGround := w.toGround + [m])
  }

  function Sent(w: World, m: ToVehicle): World {
    w.(toVehicle := w.toVehicle + [m])
  }

  predicate Complete(u: Upload) {
    forall k :: 0 <= k < u.count ==> k in u.staged
  }

  function Listed(u: Upload): (s: seq<MissionItem>)
    requires Complete(u)
    ensures |s| == u.count && forall k :: 0 <= k < u.count ==> s[k] == u.staged[k]
  {
    seq(u.count, k requires 0 <= k < u.count => u.staged[k])
  }

  /** The vehicle reports an item under its place in the list and the type of the list. */
  function Reply(list: seq<MissionItem>, m: nat, k: nat): MissionItem
    requires k < |list|
  {
    list[k].(seqNo := k, missionType := m)
  }

  /** A list as the vehicle reports it. */
  function Reported(list: seq<MissionItem>, m: nat): (r: seq<MissionItem>)
    ensures |r| == |list| && forall k :: 0 <= k < |list| ==> r[k] == Reply(list, m, k)
  {
    seq(|list|, k requires 0 <= k < |list| => Reply(list, m, k))
  }

  function Kept(list: seq<MissionItem>, n: nat): (r: seq<MissionItem>)
    ensures r <= list && |r| <= n
  {
    if n < |list| then list[..n] else list
  }

  /**
   The vehicle works on one transaction at a time: a new count, a clear or a download ends an
   upload that is still open.  It may clear less than it was asked to, and still say yes.
   */
  function Handled(w: World, m: ToVehicle, kept: nat, ack: nat): World {
    match m
    case Count(n, t) => w.(open := Some(Upload(t, n, map[])))
    case ItemInt(item) =>
      if w.open.Some? && item.seqNo < w.open.value.count then
        w.(open := Some(w.open.value.(staged := w.open.value.staged[item.seqNo := item])))
      else w
    case RequestList(t) => Said(w.(open := None), CountIs(|Held(w, t)|, t))
    case RequestItem(k, t) => if k < |Held(w, t)| then Said(w, ItemIs(Reply(Held(w, t), t, k))) else w
    case ClearAll(t) => Said(w.(open := None, stored := w.stored[t := Kept(Held(w, t), kept)]), Ack(ack, t))
    case DownloadAck(_) => w
  }

  function Step(w: World, e: Event): World {
    match e
    case Take(kept, ack) =>
      if w.toVehicle == [] then w
      else Handled(w.(toVehicle := w.toVehicle[1..]), w.toVehicle[0], kept, ack)
    case Lose(i) => if i < |w.toVehicle| then w.(toVehicle := Removed(w.toVehicle, i)) else w
    case Ask(k) => Said(w, Request(k))
    case Accept =>
      // the one way to accept an upload: every item has been received, and is now stored
      if w.open.Some? && Complete(w.open.value) then
        var u := w.open.value;
        Said(w.(open := None, stored := w.stored[u.missionType := Listed(u)]), Ack(ACCEPTED, u.missionType))
      else w
    case Refuse(kind, t) => if kind == ACCEPTED then w else Said(w.(open := None), Ack(kind, t))
    case Drop(i) => if i < |w.toGround| then w.(toGround := Removed(w.toGround, i)) else w
    case Repeat(i) => if i < |w.toGround| && !w.toGround[i].Ack? then Said(w, w.toGround[i]) else w
    case Deliver(i) => if i < |w.toGround| then w.(toGround := Removed(w.toGround, i)) else w
    case Noise(m) => Said(w, m)
    case Wait => w
    case Elapse(_) => w
  }

  function After(w: World, es: seq<Event>): World {
    if es == [] then w else Step(After(w, es[..|es| - 1]), es[|es| - 1])
  }

  /** Nobody but this vehicle speaks. */
  predicate Honest(es: seq<Event>) {
    forall i :: 0 <= i < |es| ==> !es[i].Noise?
  }

  // ----- what holds before and between transactions

  predicate IsAccept(m: ToGround) {
    m.Ack? && m.kind == ACCEPTED
  }

  predicate NoAccept(w: World) {
    forall i :: 0 <= i < |w.toGround| ==> !IsAccept(w.toGround[i])
  }

  predicate NoCount(w: World) {
    forall i :: 0 <= i < |w.toVehicle| ==> !w.toVehicle[i].Count?
  }

  predicate NoClear(w: World) {
    forall i :: 0 <= i < |w.toVehicle| ==> !w.toVehicle[i].ClearAll?
  }

  /** No upload is open or about to open. */
  predicate Settled(w: World) {
    w.open.None? && NoCount(w)
  }

  /** Nothing is under way that would change what the vehicle stores. */
  predicate Quiet(w: World) {
    Settled(w) && NoClear(w)
  }

  /** In addition no acceptance is left over from an earlier transaction. */
  predicate Fresh(w: World) {
    Quiet(w) && NoAccept(w)
  }

  lemma {:induction false} QuietKept(w: World, es: seq<Event>)
    requires Quiet(w) && Honest(es)
    ensures Quiet(After(w, es)) && After(w, es).stored == w.stored
    decreases |es|
  {
    if es != [] {
      QuietKept(w, es[..|es| - 1]);
    }
  }

  /** Without an upload the lists can only get shorter. */
  lemma {:induction false} SettledKept(w: World, es: seq<Event>)
    requires Settled(w)
    ensures Settled(After(w, es))
    ensures forall m: nat :: Held(After(w, es), m) <= Held(w, m)
    decreases |es|
  {
    if es != [] {
      SettledKept(w, es[..|es| - 1]);
    }
  }

  // ----- an upload

  predicate Ours(m: ToVehicle, items: seq<MissionItem>, sent: set<nat>) {
    && !m.Count? && !m.ClearAll?
    && (m.ItemInt? ==>
          var k := m.item.seqNo;
          k < |items| && k in sent && m.item == items[k])
  }

  predicate OursFrom(w: World, from: nat, items: seq<MissionItem>, sent: set<nat>) {
    forall i :: from <= i < |w.toVehicle| ==> Ours(w.toVehicle[i], items, sent)
  }

  predicate OpenIsOurs(w: World, items: seq<MissionItem>, m: nat, sent: set<nat>) {
    w.open.Some? ==>
      && w.open.value.missionType == m && w.open.value.count == |items|
      && (forall k :: k in w.open.value.staged ==> k < |items| && k in sent && w.open.value.staged[k] == items[k])
      && NoAccept(w) && OursFrom(w, 0, items, sent)
  }

  predicate CountIsOurs(w: World, items: seq<MissionItem>, m: nat, sent: set<nat>) {
    forall i :: 0 <= i < |w.toVehicle| && w.toVehicle[i].Count? ==>
      && w.toVehicle[i] == Count(|items|, m) && w.open.None? && NoAccept(w)
      && OursFrom(w, i + 1, items, sent)
  }

  predicate AcceptIsOurs(w: World, items: seq<MissionItem>, m: nat, sent: set<nat>) {
    forall i :: 0 <= i < |w.toGround| && IsAccept(w.toGround[i]) ==>
      && w.open.None? && NoCount(w) && Held(w, m) == items && (forall k :: 0 <= k < |items| ==> k in sent)
      && forall j :: 0 <= j < |w.toGround| && j != i ==> !IsAccept(w.toGround[j])
  }

  /**
   What every step of an upload keeps: the vehicle stages only what was sent, and when it has
   accepted, it stores exactly the list, all of which was sent.
   */
  predicate Uploading(w: World, items: seq<MissionItem>, m: nat, sent: set<nat>) {
    && NoClear(w)
    && OpenIsOurs(w, items, m, sent)
    && CountIsOurs(w, items, m, sent)
    && AcceptIsOurs(w, items, m, sent)
  }

  lemma UploadStarts(w: World, items: seq<MissionItem>, m: nat)
    requires Fresh(w)
    ensures Uploading(Sent(w, Count(|items|, m)), items, m, {})
  {}

  lemma ItemSent(w: World, items: seq<MissionItem>, m: nat, sent: set<nat>, k: nat)
    requires Uploading(w, items, m, sent) && k < |items| && items[k].seqNo == k
    ensures Uploading(Sent(w, ItemInt(items[k])), items, m, sent + {k})
  {}

  /** The messages to the ground may change, as long as no acceptance comes with it. */
  lemma UploadHears(w: World, heard: seq<ToGround>, items: seq<MissionItem>, m: nat, sent: set<nat>)
    requires Uploading(w, items, m, sent)
    requires forall i :: 0 <= i < |heard| && IsAccept(heard[i]) ==>
               exists j :: 0 <= j < |w.toGround| && IsAccept(w.toGround[j])
    requires forall i, j :: 0 <= i < j < |heard| ==> !IsAccept(heard[i]) || !IsAccept(heard[j])
    ensures Uploading(w.(toGround := heard), items, m, sent)
  {}

  lemma UploadHearsOneMore(w: World, said: ToGround, items: seq<MissionItem>, m: nat, sent: set<nat>)
    requires Uploading(w, items, m, sent) && !IsAccept(said)
    ensures Uploading(Said(w, said), items, m, sent)
  {
    UploadHears(w, w.toGround + [said], items, m, sent);
  }

  lemma UploadHearsOneLess(w: World, i: nat, items: seq<MissionItem>, m: nat, sent: set<nat>)
    requires Uploading(w, items, m, sent) && i < |w.toGround|
    ensures Uploading(w.(toGround := Removed(w.toGround, i)), items, m, sent)
  {
    UploadHears(w, Removed(w.toGround, i), items, m, sent);
  }

  lemma UploadCloses(w: World, items: seq<MissionItem>, m: nat, sent: set<nat>)
    requires Uploading(w, items, m, sent)
    ensures Uploading(w.(open := None), items, m, sent)
  {}

  lemma UploadLoses(w: World, i: nat, items: seq<MissionItem>, m: nat, sent: set<nat>)
    requires Uploading(w, items, m, sent) && i < |w.toVehicle|
    ensures Uploading(w.(toVehicle := Removed(w.toVehicle, i)), items, m, sent)
  {}

  lemma UploadAccepts(w: World, items: seq<MissionItem>, m: nat, sent: set<nat>)
    requires Uploading(w, items, m, sent)
    ensures Uploading(Step(w, Accept), items, m, sent)
    ensures forall t: nat :: t != m ==> Held(Step(w, Accept), t) == Held(w, t)
  {
    if w.open.Some? && Complete(w.open.value) {
      assert Listed(w.open.value) == items;
    }
  }

  lemma UploadOpens(w: World, items: seq<MissionItem>, m: nat, sent: set<nat>)
    requires Uploading(w, items, m, sent) && w.toVehicle != [] && w.toVehicle[0].Count?
    ensures var c := w.toVehicle[0];
            Uploading(w.(toVehicle := w.toVehicle[1..], open := Some(Upload(c.missionType, c.count, map[]))),
                  items, m, sent)
  {}

  lemma UploadStages(w: World, items: seq<MissionItem>, m: nat, sent: set<nat>)
    requires Uploading(w, items, m, sent) && w.toVehicle != [] && w.toVehicle[0].ItemInt?
    ensures Uploading(Handled(w.(toVehicle := w.toVehicle[1..]), w.toVehicle[0], 0, 0), items, m, sent)
  {}

  lemma UploadTakes(w: World, kept: nat, ack: nat, items: seq<MissionItem>, m: nat, sent: set<nat>)
    requires Uploading(w, items, m, sent) && w.toVehicle != []
    ensures Uploading(Handled(w.(toVehicle := w.toVehicle[1..]), w.toVehicle[0], kept, ack), items, m, sent)
    ensures Handled(w.(toVehicle := w.toVehicle[1..]), w.toVehicle[0], kept, ack).stored == w.stored
  {
    assert !w.toVehicle[0].ClearAll?;
    hide Uploading;
    assert Removed(w.toVehicle, 0) == w.toVehicle[1..];
    UploadLoses(w, 0, items, m, sent);
    var rest := w.(toVehicle := w.toVehicle[1..]);
    match w.toVehicle[0]
    case Count(_, _) => UploadOpens(w, items, m, sent);
    case ItemInt(_) => UploadStages(w, items, m, sent);
    case RequestList(t) =>
      UploadCloses(rest, items, m, sent);
      UploadHearsOneMore(rest.(open := None), CountIs(|Held(rest, t)|, t), items, m, sent);
    case RequestItem(k, t) =>
      if k < |Held(rest, t)| {
        UploadHearsOneMore(rest, ItemIs(Reply(Held(rest, t), t, k)), items, m, sent);
      }
    case _ =>
  }

  lemma UploadStep(w: World, e: Event, items: seq<MissionItem>, m: nat, sent: set<nat>)
    requires Uploading(w, items, m, sent) && !e.Noise?
    ensures Uploading(Step(w, e), items, m, sent)
    ensures forall t: nat :: t != m ==> Held(Step(w, e), t) == Held(w, t)
  {
    hide Uploading, Handled;
    match e
    case Take(kept, ack) =>
      if w.toVehicle != [] {
        UploadTakes(w, kept, ack, items, m, sent);
      }
    case Lose(i) =>
      if i < |w.toVehicle| {
        UploadLoses(w, i, items, m, sent);
      }
    case Ask(k) => UploadHearsOneMore(w, Request(k), items, m, sent);
    case Accept => UploadAccepts(w, items, m, sent);
    case Refuse(kind, t) =>
      UploadCloses(w, items, m, sent);
      if kind != ACCEPTED {
        UploadHearsOneMore(w.(open := None), Ack(kind, t), items, m, sent);
      }
    case Drop(i) =>
      if i < |w.toGround| {
        UploadHearsOneLess(w, i, items, m, sent);
      }
    case Repeat(i) =>
      if i < |w.toGround| && !w.toGround[i].Ack? {
        UploadHearsOneMore(w, w.toGround[i], items, m, sent);
      }
    case Deliver(i) =>
      if i < |w.toGround| {
        UploadHearsOneLess(w, i, items, m, sent);
      }
    case _ =>
  }

  lemma {:induction false} UploadKept(w: World, es: seq<Event>, items: seq<MissionItem>, m: nat, sent: set<nat>)
    requires Uploading(w, items, m, sent) && Honest(es)
    ensures Uploading(After(w, es), items, m, sent)
    ensures forall t: nat :: t != m ==> Held(After(w, es), t) == Held(w, t)
    decreases |es|
  {
    hide Uploading, Step;
    if es != [] {
      UploadKept(w, es[..|es| - 1], items, m, sent);
      UploadStep(After(w, es[..|es| - 1]), es[|es| - 1], items, m, sent);
    }
  }

  /** When an acceptance is there to be read, the list is stored, and reading it leaves nothing open. */
  lemma AcceptanceReached(w: World, i: nat, items: seq<MissionItem>, m: nat, sent: set<nat>)
    requires Uploading(w, items, m, sent) && i < |w.toGround| && IsAccept(w.toGround[i])
    ensures Held(w, m) == items && forall k :: 0 <= k < |items| ==> k in sent
    ensures Fresh(Step(w, Deliver(i))) && Step(w, Deliver(i)).stored == w.stored
  {}

  // ----- the rules leave room for success

  function ItemsFrom(items: seq<MissionItem>, k: nat): (r: seq<ToVehicle>)
    requires k <= |items|
    decreases |items| - k
  {
    if k == |items| then [] else [ItemInt(items[k])] + ItemsFrom(items, k + 1)
  }

  function Takes(n: nat): seq<Event> {
    if n == 0 then [] else Takes(n - 1) + [Take(0, 0)]
  }

  /** The first n items have been received, the others are on their way. */
  predicate Received(w: World, items: seq<MissionItem>, m: nat, n: nat)
    requires n <= |items|
  {
    && w.toVehicle == ItemsFrom(items, n) && w.open.Some?
    && w.open.value.missionType == m && w.open.value.count == |items|
    && forall k :: 0 <= k < n ==> k in w.open.value.staged && w.open.value.staged[k] == items[k]
  }

  lemma TakesCount(w: World, items: seq<MissionItem>, m: nat)
    requires w.toVehicle == [Count(|items|, m)] + ItemsFrom(items, 0)
    ensures Received(Step(w, Take(0, 0)), items, m, 0)
  {
    hide ItemsFrom;
    assert w.toVehicle[0] == Count(|items|, m);
    assert w.toVehicle[1..] == ItemsFrom(items, 0);
  }

  lemma TakesItem(w: World, items: seq<MissionItem>, m: nat, n: nat)
    requires n < |items| && items[n].seqNo == n && Received(w, items, m, n)
    ensures Received(Step(w, Take(0, 0)), items, m, n + 1)
  {
    assert w.toVehicle[0] == ItemInt(items[n]) && w.toVehicle[1..] == ItemsFrom(items, n + 1);
  }

  lemma {:induction false} TakesAll(w: World, items: seq<MissionItem>, m: nat, n: nat)
    requires w.toVehicle == [Count(|items|, m)] + ItemsFrom(items, 0) && n <= |items|
    requires forall i :: 0 <= i < |items| ==> items[i].seqNo == i
    ensures Received(After(w, Takes(n + 1)), items, m, n)
  {
    hide Received, Step;
    var es := Takes(n + 1);
    assert es == Takes(n) + [Take(0, 0)] && es[..|es| - 1] == Takes(n);
    if n == 0 {
      assert After(w, Takes(0)) == w;
      TakesCount(w, items, m);
    } else {
      TakesAll(w, items, m, n - 1);
      TakesItem(After(w, Takes(n)), items, m, n - 1);
    }
  }

  /** When nothing is lost the vehicle receives the count and every item, and can accept. */
  lemma UndisturbedUpload(w: World, items: seq<MissionItem>, m: nat)
    requires w.toVehicle == [Count(|items|, m)] + ItemsFrom(items, 0)
    requires forall i :: 0 <= i < |items| ==> items[i].seqNo == i
    ensures var v := After(w, Takes(|items| + 1) + [Accept]);
            Held(v, m) == items && Ack(ACCEPTED, m) in v.toGround
  {
    TakesAll(w, items, m, |items|);
    var es := Takes(|items| + 1);
    var v := After(w, es);
    assert (es + [Accept])[..|es|] == es;
    assert Listed(v.open.value) == items;
    assert Step(v, Accept).toGround[|v.toGround|] == Ack(ACCEPTED, m);
  }

  // ----- downloads

  /** Nothing has been asked or said about the lists. */
  predicate NoLists(w: World) {
    && (forall i :: 0 <= i < |w.toVehicle| ==> !w.toVehicle[i].RequestList? && !w.toVehicle[i].RequestItem?)
    && (forall i :: 0 <= i < |w.toGround| ==> !w.toGround[i].CountIs? && !w.toGround[i].ItemIs?)
  }

  lemma NoListsStep(w: World, e: Event)
    requires NoLists(w) && !e.Noise?
    ensures NoLists(Step(w, e))
  {}

  lemma {:induction false} NoListsKept(w: World, es: seq<Event>)
    requires NoLists(w) && Honest(es)
    ensures NoLists(After(w, es))
    decreases |es|
  {
    hide NoLists, Step;
    if es != [] {
      NoListsKept(w, es[..|es| - 1]);
      NoListsStep(After(w, es[..|es| - 1]), es[|es| - 1]);
    }
  }

  /** No count follows a request for a list, so whoever reads the answer knows that no upload is left. */
  predicate ListsComeLast(w: World) {
    forall i, j :: 0 <= i < j < |w.toVehicle| && w.toVehicle[i].RequestList? ==> !w.toVehicle[j].Count?
  }

  /** An announced count still bounds the list: after it no upload can add to it. */
  predicate Bounded(w: World) {
    && ListsComeLast(w)
    && forall i :: 0 <= i < |w.toGround| && w.toGround[i].CountIs? ==>
         Settled(w) && |Held(w, w.toGround[i].missionType)| <= w.toGround[i].count
  }

  lemma NoListsIsBounded(w: World)
    requires NoLists(w)
    ensures Bounded(w)
  {}

  lemma BoundedSends(w: World, m: ToVehicle)
    requires Bounded(w) && !m.Count?
    ensures Bounded(Sent(w, m))
  {}

  lemma BoundedTakes(w: World, kept: nat, ack: nat)
    requires Bounded(w)
    ensures Bounded(Step(w, Take(kept, ack)))
  {}

  lemma BoundedStep(w: World, e: Event)
    requires Bounded(w) && !e.Noise?
    ensures Bounded(Step(w, e))
  {
    hide Handled;
    match e
    case Take(kept, ack) => BoundedTakes(w, kept, ack);
    case _ =>
  }

  lemma {:induction false} BoundedKept(w: World, es: seq<Event>)
    requires Bounded(w) && Honest(es)
    ensures Bounded(After(w, es))
    decreases |es|
  {
    hide Bounded, Step;
    if es != [] {
      BoundedKept(w, es[..|es| - 1]);
      BoundedStep(After(w, es[..|es| - 1]), es[|es| - 1]);
    }
  }

  /** What was said about the list of type m, and is still on its way, is true of it. */
  predicate Faithful(w: World, m: nat) {
    && Quiet(w)
    && forall i :: 0 <= i < |w.toGround| ==> TrueOf(w.toGround[i], m, Held(w, m))
  }

  predicate TrueOf(said: ToGround, m: nat, list: seq<MissionItem>) {
    && (said.CountIs? && said.missionType == m ==> said.count == |list|)
    && (said.ItemIs? && said.item.missionType == m ==>
          said.item.seqNo < |list| && said.item == Reply(list, m, said.item.seqNo))
  }

  lemma FaithfulStarts(w: World, m: nat)
    requires Quiet(w) && NoLists(w)
    ensures Faithful(w, m)
  {}

  lemma FaithfulStep(w: World, e: Event, m: nat)
    requires Faithful(w, m) && !e.Noise?
    ensures Faithful(Step(w, e), m) && Step(w, e).stored == w.stored
  {}

  lemma {:induction false} FaithfulKept(w: World, es: seq<Event>, m: nat)
    requires Faithful(w, m) && Honest(es)
    ensures Faithful(After(w, es), m) && After(w, es).stored == w.stored
    decreases |es|
  {
    hide Faithful, Step;
    if es != [] {
      FaithfulKept(w, es[..|es| - 1], m);
      FaithfulStep(After(w, es[..|es| - 1]), es[|es| - 1], m);
    }
  }
}
