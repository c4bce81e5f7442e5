/**
 What becomes of the vehicle's lists in a run: which messages are sent and which events happen, what
 the vehicle does to its lists on the way, and when a list is short in the end.
 */
module Deeds {
  import opened Reading
  import opened Vehicle
  import opened Wrappers

  /** What a vehicle can do to a list: cut it down to so many items, or replace it. */
  datatype Deed = Cut(missionType: nat, kept: nat) | Store(missionType: nat, list: seq<MissionItem>)

  /** What the vehicle does to its lists in one step: a clear was taken, or an upload accepted. */
  function DeedsOf(w: World, e: Event): (r: seq<Deed>)
    ensures |r| <= 1
  {
    match e
    case Take(kept, _) =>
      if w.toVehicle != [] && w.toVehicle[0].ClearAll? then [Cut(w.toVehicle[0].missionType, kept)] else []
    case Accept =>
      if w.open.Some? && Complete(w.open.value) then
        [Store(w.open.value.missionType, Listed(w.open.value))]
      else []
    case _ => []
  }

  /** What the deeds, one after the other, leave of the list of type t. */
  function Left(list: seq<MissionItem>, t: nat, deeds: seq<Deed>): seq<MissionItem> {
    if deeds == [] then list
    else
      var before := Left(list, t, deeds[..|deeds| - 1]);
      match deeds[|deeds| - 1]
      case Cut(m, kept) => if m == t then Kept(before, kept) else before
      case Store(m, stored) => if m == t then stored else before
  }

  /**
   What can befall a connection: the ground station sends a message, it sleeps for a tick, or
   something happens while it reads, looking for certain messages.
   */
  datatype Moment = Sends(message: ToVehicle) | Sleeps | Happens(event: Event, want: Want)

  function Run(w: World, trace: seq<Moment>): World {
    if trace == [] then w
    else
      var before := Run(w, trace[..|trace| - 1]);
      match trace[|trace| - 1]
      case Sends(m) => Sent(before, m)
      case Sleeps => before
      case Happens(e, _) => Step(before, e)
  }

  /** The messages sent. */
  function SentIn(trace: seq<Moment>): seq<ToVehicle> {
    if trace == [] then []
    else
      var last := trace[|trace| - 1];
      SentIn(trace[..|trace| - 1]) + if last.Sends? then [last.message] else []
  }

  /** The events that happened. */
  function Happened(trace: seq<Moment>): seq<Event> {
    if trace == [] then []
    else
      var last := trace[|trace| - 1];
      Happened(trace[..|trace| - 1]) + if last.Happens? then [last.event] else []
  }

  /** The time that passed. */
  function TimeIn(trace: seq<Moment>): nat {
    if trace == [] then 0
    else
      var last := trace[|trace| - 1];
      TimeIn(trace[..|trace| - 1]) + if last.Sends? then 0 else if last.Sleeps? then 1 else Ticks(last.event)
  }

  /** The message a moment brings: one that is delivered, and looked for. */
  function HeardAt(w: World, x: Moment): seq<ToGround> {
    if x.Happens? then
      var msg := Arriving(w, [x.event]);
      if msg.Some? && Wanted(x.want, msg.value) then [msg.value] else []
    else []
  }

  /** All the messages that were read. */
  function HeardIn(w: World, trace: seq<Moment>): seq<ToGround> {
    if trace == [] then []
    else
      var before := trace[..|trace| - 1];
      HeardIn(w, before) + HeardAt(Run(w, before), trace[|trace| - 1])
  }

  /** What the vehicle did to its lists. */
  function DeedsIn(w: World, trace: seq<Moment>): seq<Deed> {
    if trace == [] then []
    else
      var before := trace[..|trace| - 1];
      var last := trace[|trace| - 1];
      DeedsIn(w, before) + if last.Happens? then DeedsOf(Run(w, before), last.event) else []
  }

  lemma OneMoment(w: World, trace: seq<Moment>, more: Moment)
    ensures Run(w, trace + [more]) ==
            if more.Sends? then Sent(Run(w, trace), more.message)
            else if more.Sleeps? then Run(w, trace)
            else Step(Run(w, trace), more.event)
    ensures SentIn(trace + [more]) == SentIn(trace) + if more.Sends? then [more.message] else []
    ensures Happened(trace + [more]) == Happened(trace) + if more.Happens? then [more.event] else []
    ensures TimeIn(trace + [more]) ==
            TimeIn(trace) + if more.Sends? then 0 else if more.Sleeps? then 1 else Ticks(more.event)
    ensures HeardIn(w, trace + [more]) == HeardIn(w, trace) + HeardAt(Run(w, trace), more)
  {
    assert (trace + [more])[..|trace|] == trace;
  }

  lemma {:induction false} RunTwice(w: World, a: seq<Moment>, b: seq<Moment>)
    ensures Run(w, a + b) == Run(Run(w, a), b)
    decreases |b|
  {
    if b == [] {
      assert a + b == a;
    } else {
      RunTwice(w, a, b[..|b| - 1]);
      assert (a + b)[..|a + b| - 1] == a + b[..|b| - 1];
    }
  }

  /** A step changes a list by what the vehicle does in it, and by nothing else. */
  lemma StepLeaves(w: World, e: Event, t: nat)
    ensures Held(Step(w, e), t) == Left(Held(w, t), t, DeedsOf(w, e))
  {
    var deeds := DeedsOf(w, e);
    if deeds == [] {
      assert Step(w, e).stored == w.stored;
    } else {
      assert deeds[..0] == [];
    }
  }

  /** In every run the lists are what the deeds make of those there were. */
  lemma {:induction false} RunLeaves(w: World, trace: seq<Moment>, t: nat)
    ensures Held(Run(w, trace), t) == Left(Held(w, t), t, DeedsIn(w, trace))
    decreases |trace|
  {
    hide Left, Step, DeedsOf;
    if trace == [] {
      NothingLeaves(Held(w, t), t);
    } else {
      var before := trace[..|trace| - 1];
      RunLeaves(w, before, t);
      if trace[|trace| - 1].Happens? {
        var e := trace[|trace| - 1].event;
        StepLeaves(Run(w, before), e, t);
        LeftTwice(Held(w, t), t, DeedsIn(w, before), DeedsOf(Run(w, before), e));
      } else {
        assert DeedsIn(w, before) + [] == DeedsIn(w, before);
      }
    }
  }

  lemma NothingLeaves(list: seq<MissionItem>, t: nat)
    ensures Left(list, t, []) == list
  {}

  lemma {:induction false} NothingHappens(w: World, trace: seq<Moment>)
    requires Happened(trace) == []
    ensures Run(w, trace).stored == w.stored && DeedsIn(w, trace) == []
    decreases |trace|
  {
    if trace != [] {
      NothingHappens(w, trace[..|trace| - 1]);
    }
  }

  lemma {:induction false} LeftTwice(list: seq<MissionItem>, t: nat, a: seq<Deed>, b: seq<Deed>)
    ensures Left(list, t, a + b) == Left(Left(list, t, a), t, b)
    decreases |b|
  {
    if b == [] {
      assert a + b == a;
    } else {
      LeftTwice(list, t, a, b[..|b| - 1]);
      assert (a + b)[..|a + b| - 1] == a + b[..|b| - 1];
    }
  }

  /** After this deed the list of type t has at most n items, whatever it was. */
  predicate Shortens(d: Deed, t: nat, n: nat) {
    d.missionType == t && if d.Cut? then d.kept <= n else |d.list| <= n
  }

  predicate Lengthens(d: Deed, t: nat, n: nat) {
    d.missionType == t && d.Store? && |d.list| > n
  }

  predicate NoneLengthens(deeds: seq<Deed>, from: nat, t: nat, n: nat) {
    forall i :: from <= i < |deeds| ==> !Lengthens(deeds[i], t, n)
  }

  /** The list was short, or was made short, and no longer one was stored since. */
  predicate KeptShort(list: seq<MissionItem>, t: nat, deeds: seq<Deed>, n: nat) {
    || (|list| <= n && NoneLengthens(deeds, 0, t, n))
    || exists i :: 0 <= i < |deeds| && Shortens(deeds[i], t, n) && NoneLengthens(deeds, i + 1, t, n)
  }

  /** A list has at most n items in the end exactly when it was cut down to that and not stored again. */
  lemma {:induction false} ShortIff(list: seq<MissionItem>, t: nat, deeds: seq<Deed>, n: nat)
    ensures |Left(list, t, deeds)| <= n <==> KeptShort(list, t, deeds, n)
    decreases |deeds|
  {
    if deeds != [] {
      var k := |deeds| - 1;
      var before := deeds[..k];
      ShortIff(list, t, before, n);
      if Shortens(deeds[k], t, n) {
        assert NoneLengthens(deeds, k + 1, t, n);
      } else if !Lengthens(deeds[k], t, n) {
        KeptShortGoesOn(list, t, deeds, n);
      } else {
        assert deeds[k].missionType == t;
      }
    }
  }

  lemma KeptShortGoesOn(list: seq<MissionItem>, t: nat, deeds: seq<Deed>, n: nat)
    requires deeds != []
    requires !Shortens(deeds[|deeds| - 1], t, n) && !Lengthens(deeds[|deeds| - 1], t, n)
    ensures KeptShort(list, t, deeds, n) <==> KeptShort(list, t, deeds[..|deeds| - 1], n)
  {
    var before := deeds[..|deeds| - 1];
    forall i: nat
      ensures NoneLengthens(deeds, i, t, n) <==> NoneLengthens(before, i, t, n)
    {
      assert forall j :: i <= j < |before| ==> before[j] == deeds[j];
    }
    forall i | 0 <= i < |before|
      ensures Shortens(deeds[i], t, n) == Shortens(before[i], t, n)
    {}
  }
}
