/**
 What the ground station makes of a connection: the reading and waiting of the mission protocol as
 functions of the world, of what is going to happen and of the time, and what they are worth.
 */
module Reading {
  import opened Vehicle
  import opened Wrappers

  /** Where a connection stands: the world, the events that are still to come, and the time. */
  datatype Spot = Spot(world: World, events: seq<Event>, clock: nat)

  /** The message that the very next event delivers. */
  function Arriving(w: World, es: seq<Event>): Option<ToGround> {
    if es != [] && es[0].Deliver? && es[0].i < |w.toGround| then Some(w.toGround[es[0].i]) else None
  }

  /** Which messages are asked for, or accepted as an answer. */
  datatype Want = UploadAnswers | Acks | Counts | Items | AckOf(m: nat) | CountOf(m: nat) | ItemOf(m: nat, k: nat)

  predicate Wanted(want: Want, x: ToGround) {
    match want
    case UploadAnswers => x.Request? || x.Ack?
    case Acks => x.Ack?
    case Counts => x.CountIs?
    case Items => x.ItemIs?
    case AckOf(m) => x.Ack? && x.missionType == m
    case CountOf(m) => x.CountIs? && x.missionType == m
    case ItemOf(m, k) => x.ItemIs? && x.item.missionType == m && x.item.seqNo == k
  }

  function Ticks(e: Event): nat {
    if e.Elapse? then e.ticks else 0
  }

  /** One event later. */
  function Passed(at: Spot): (next: Spot)
    requires at.events != []
    ensures |next.events| == |at.events| - 1 && next.clock >= at.clock
  {
    Spot(Step(at.world, at.events[0]), at.events[1..], at.clock + Ticks(at.events[0]))
  }

  function Slept(at: Spot): Spot {
    at.(clock := at.clock + 1)
  }

  function Told(at: Spot, m: ToVehicle): Spot {
    at.(world := Sent(at.world, m))
  }

  /** recv_match without blocking: the next wanted message, if one comes before there is nothing to read. */
  function Read(at: Spot, want: Want): (r: (Option<ToGround>, Spot))
    ensures r.1.clock >= at.clock && |r.1.events| <= |at.events| && (at.events != [] ==> |r.1.events| < |at.events|)
    ensures r.0.Some? ==> Wanted(want, r.0.value)
    decreases |at.events|
  {
    if at.events == [] then (None, at)
    else
      var msg := Arriving(at.world, at.events);
      if msg.Some? && Wanted(want, msg.value) then (msg, Passed(at))
      else if at.events[0].Wait? then (None, Passed(at))
      else Read(Passed(at), want)
  }

  /** Reading, and sleeping for a tick, until a message that is accepted comes or the deadline is there. */
  function Await(at: Spot, deadline: nat, want: Want, accepted: Want): (r: (Option<ToGround>, Spot))
    ensures r.1.clock >= at.clock && |r.1.events| <= |at.events|
    ensures r.0.Some? ==> Wanted(accepted, r.0.value)
    decreases deadline - at.clock
  {
    if at.clock >= deadline then (None, at)
    else
      var r := Read(at, want);
      if r.0.Some? && Wanted(accepted, r.0.value) then r else Await(Slept(r.1), deadline, want, accepted)
  }

  lemma AwaitUnfolds(at: Spot, deadline: nat, want: Want, accepted: Want)
    ensures Await(at, deadline, want, accepted) ==
            if at.clock >= deadline then (None, at)
            else
              var r := Read(at, want);
              if r.0.Some? && Wanted(accepted, r.0.value) then r else Await(Slept(r.1), deadline, want, accepted)
  {
    hide Read, Wanted;
  }

  // ----- what was delivered

  /** n events later. */
  function Later(at: Spot, n: nat): (next: Spot)
    requires n <= |at.events|
    ensures |next.events| == |at.events| - n && next.clock >= at.clock
    decreases n
  {
    if n == 0 then at else Later(Passed(at), n - 1)
  }

  /** The messages that the next n events deliver. */
  function Delivered(at: Spot, n: nat): seq<ToGround>
    requires n <= |at.events|
    decreases n
  {
    if n == 0 then []
    else
      var msg := Arriving(at.world, at.events);
      (if msg.Some? then [msg.value] else []) + Delivered(Passed(at), n - 1)
  }

  /** Those of them that are wanted. */
  function Chosen(ms: seq<ToGround>, want: Want): seq<ToGround> {
    if ms == [] then [] else (if Wanted(want, ms[0]) then [ms[0]] else []) + Chosen(ms[1..], want)
  }

  function Took(at: Spot, next: Spot): nat
    requires |next.events| <= |at.events|
  {
    |at.events| - |next.events|
  }

  lemma LaterUnfolds(at: Spot, n: nat)
    requires 0 < n <= |at.events|
    ensures Later(at, n) == Later(Passed(at), n - 1)
    ensures Delivered(at, n) == ArrivingNext(at) + Delivered(Passed(at), n - 1)
  {
    hide Arriving, Step;
  }

  /** What the next event delivers. */
  function ArrivingNext(at: Spot): seq<ToGround> {
    if Arriving(at.world, at.events).Some? then [Arriving(at.world, at.events).value] else []
  }

  lemma NothingLater(at: Spot)
    ensures Later(at, 0) == at && Delivered(at, 0) == []
  {}

  lemma {:induction false} LaterTwice(at: Spot, a: nat, b: nat)
    requires a + b <= |at.events|
    ensures Later(at, a + b) == Later(Later(at, a), b)
    ensures Delivered(at, a + b) == Delivered(at, a) + Delivered(Later(at, a), b)
    decreases a
  {
    hide Later, Delivered, Passed;
    if a == 0 {
      NothingLater(at);
    } else {
      LaterUnfolds(at, a);
      LaterUnfolds(at, a + b);
      LaterTwice(Passed(at), a - 1, b);
    }
  }

  /** Sleeping changes the time and nothing else. */
  lemma {:induction false} SleepingIsHarmless(at: Spot, n: nat)
    requires n <= |at.events|
    ensures Later(Slept(at), n) == Slept(Later(at, n)) && Delivered(Slept(at), n) == Delivered(at, n)
    decreases n
  {
    hide Step, Arriving;
    if n > 0 {
      assert Passed(Slept(at)) == Slept(Passed(at));
      SleepingIsHarmless(Passed(at), n - 1);
    }
  }

  lemma {:induction false} ChosenOfBoth(a: seq<ToGround>, b: seq<ToGround>, want: Want)
    ensures Chosen(a + b, want) == Chosen(a, want) + Chosen(b, want)
  {
    hide Wanted;
    if a == [] {
      assert a + b == b;
    } else {
      assert (a + b)[0] == a[0] && (a + b)[1..] == a[1..] + b;
      ChosenOfBoth(a[1..], b, want);
      ThreeParts(if Wanted(want, a[0]) then [a[0]] else [], Chosen(a[1..], want), Chosen(b, want));
    }
  }

  lemma ThreeParts(a: seq<ToGround>, b: seq<ToGround>, c: seq<ToGround>)
    ensures a + (b + c) == a + b + c
  {}

  /** Whatever is accepted is wanted. */
  ghost predicate Covers(want: Want, accepted: Want) {
    forall x :: Wanted(accepted, x) ==> Wanted(want, x)
  }

  lemma {:induction false} ChosenTwice(ms: seq<ToGround>, want: Want, accepted: Want)
    requires Covers(want, accepted)
    ensures Chosen(ms, accepted) == Chosen(Chosen(ms, want), accepted)
  {
    hide Wanted;
    if ms != [] {
      ChosenTwice(ms[1..], want, accepted);
      var rest := Chosen(ms[1..], want);
      if Wanted(want, ms[0]) {
        assert ([ms[0]] + rest)[1..] == rest;
      } else {
        assert [] + rest == rest;
      }
    }
  }

  /** One round of a reading, by its cases. */
  lemma ReadUnfolds(at: Spot, want: Want)
    requires at.events != []
    ensures var msg := Arriving(at.world, at.events);
            Read(at, want) ==
            if msg.Some? && Wanted(want, msg.value) then (msg, Passed(at))
            else if at.events[0].Wait? then (None, Passed(at))
            else Read(Passed(at), want)
  {
    hide Arriving, Wanted, Passed;
  }

  lemma ChosenNext(at: Spot, rest: seq<ToGround>, want: Want)
    ensures Chosen(ArrivingNext(at) + rest, want) ==
            var msg := Arriving(at.world, at.events);
            (if msg.Some? && Wanted(want, msg.value) then [msg.value] else []) + Chosen(rest, want)
  {
    hide Wanted;
    var msg := Arriving(at.world, at.events);
    ChosenOfBoth(ArrivingNext(at), rest, want);
    if msg.Some? {
      assert [msg.value][1..] == [];
    }
  }

  /** A reading drops no wanted message: it returns the first that the events passed deliver, or there was none. */
  lemma {:induction false} ReadTakesTheFirst(at: Spot, want: Want)
    ensures var r := Read(at, want);
            && r.1 == Later(at, Took(at, r.1))
            && Chosen(Delivered(at, Took(at, r.1)), want) == if r.0.Some? then [r.0.value] else []
    decreases |at.events|
  {
    hide Arriving, Wanted, Passed, Later, Delivered, Chosen, Read, ArrivingNext;
    if at.events == [] {
      NothingLater(at);
      NothingRead(at, want);
    } else {
      var n := Took(at, Read(at, want).1);
      ReadUnfolds(at, want);
      LaterUnfolds(at, n);
      ChosenNext(at, Delivered(Passed(at), n - 1), want);
      if Read(at, want).1 == Passed(at) && n == 1 {
        NothingLater(Passed(at));
        NothingRead(Passed(at), want);
      } else {
        ReadTakesTheFirst(Passed(at), want);
      }
    }
  }

  lemma NothingRead(at: Spot, want: Want)
    ensures at.events == [] ==> Read(at, want) == (None, at)
    ensures Chosen([], want) == []
  {}

  /** It stops without a message only where there is nothing to read, or after the last event. */
  lemma {:induction false} ReadStopsAtWait(at: Spot, want: Want)
    ensures var r := Read(at, want);
            var n := Took(at, r.1);
            r.0.None? && r.1.events != [] ==> n > 0 && at.events[n - 1].Wait?
    decreases |at.events|
  {
    if at.events != [] {
      ReadStopsAtWait(Passed(at), want);
    }
  }

  /**
   A wait well spent: of the messages delivered meanwhile it returns the first that is accepted, or
   none was; it gives up only at the deadline, and as long as events are left it does not sleep more
   often than events have passed.
   */
  predicate WellSpent(at: Spot, deadline: nat, accepted: Want, r: (Option<ToGround>, Spot)) {
    && |r.1.events| <= |at.events|
    && var n := Took(at, r.1);
       && r.1 == Later(at, n).(clock := r.1.clock)
       && Chosen(Delivered(at, n), accepted) == (if r.0.Some? then [r.0.value] else [])
       && (r.0.None? ==> r.1.clock >= deadline)
       && Later(at, n).clock <= r.1.clock && (r.1.events != [] ==> r.1.clock <= Later(at, n).clock + n)
  }

  /** Nothing accepted was delivered up to here; then it slept, and what followed was well spent. */
  lemma SpentOn(at: Spot, deadline: nat, accepted: Want, n: nat, r: (Option<ToGround>, Spot))
    requires n <= |at.events| && (at.events != [] ==> n > 0)
    requires Chosen(Delivered(at, n), accepted) == []
    requires WellSpent(Slept(Later(at, n)), deadline, accepted, r)
    ensures WellSpent(at, deadline, accepted, r)
  {
    hide Wanted, Later, Delivered, Chosen;
    var mid := Later(at, n);
    var k := Took(mid, r.1);
    SleepingIsHarmless(mid, k);
    LaterTwice(at, n, k);
    ChosenOfBoth(Delivered(at, n), Delivered(mid, k), accepted);
    assert [] + Chosen(Delivered(mid, k), accepted) == Chosen(Delivered(mid, k), accepted);
  }

  lemma SpentReading(at: Spot, deadline: nat, accepted: Want, r: (Option<ToGround>, Spot))
    requires |r.1.events| <= |at.events| && r.1 == Later(at, Took(at, r.1)) && r.0.Some?
    requires Chosen(Delivered(at, Took(at, r.1)), accepted) == [r.0.value]
    ensures WellSpent(at, deadline, accepted, r)
  {}

  lemma NothingSpent(at: Spot, deadline: nat, accepted: Want)
    requires at.clock >= deadline
    ensures WellSpent(at, deadline, accepted, (None, at))
  {
    NothingLater(at);
  }

  /** Every wait is well spent. */
  lemma {:induction false} AwaitTakesTheFirst(at: Spot, deadline: nat, want: Want, accepted: Want)
    requires Covers(want, accepted)
    ensures WellSpent(at, deadline, accepted, Await(at, deadline, want, accepted))
    decreases deadline - at.clock
  {
    hide Wanted, Later, Delivered, Chosen, Read, Await, Covers, WellSpent;
    AwaitUnfolds(at, deadline, want, accepted);
    if at.clock >= deadline {
      NothingSpent(at, deadline, accepted);
    } else {
      var r := Read(at, want);
      var n := Took(at, r.1);
      ReadTakesTheFirst(at, want);
      ChosenTwice(Delivered(at, n), want, accepted);
      OneChosen(r.0, accepted);
      if r.0.Some? && Wanted(accepted, r.0.value) {
        SpentReading(at, deadline, accepted, r);
      } else {
        AwaitTakesTheFirst(Slept(r.1), deadline, want, accepted);
        SpentOn(at, deadline, accepted, n, Await(Slept(r.1), deadline, want, accepted));
      }
    }
  }

  lemma OneChosen(msg: Option<ToGround>, accepted: Want)
    ensures Chosen(if msg.Some? then [msg.value] else [], accepted) ==
            if msg.Some? && Wanted(accepted, msg.value) then [msg.value] else []
  {
    hide Wanted;
    if msg.Some? {
      assert [msg.value][1..] == [];
    }
  }

  /** The time that events take. */
  function Elapsed(es: seq<Event>): nat {
    if es == [] then 0 else Ticks(es[0]) + Elapsed(es[1..])
  }

  lemma {:induction false} LaterIs(at: Spot, n: nat)
    requires n <= |at.events|
    ensures Later(at, n).events == at.events[n..] && Later(at, n).clock == at.clock + Elapsed(at.events[..n])
    decreases n
  {
    hide Step, Ticks;
    if n > 0 {
      LaterIs(Passed(at), n - 1);
      assert at.events[..n][0] == at.events[0] && at.events[..n][1..] == at.events[1..][..n - 1];
    }
  }

  lemma {:induction false} ElapsedOfBoth(a: seq<Event>, b: seq<Event>)
    ensures Elapsed(a + b) == Elapsed(a) + Elapsed(b)
  {
    hide Ticks;
    if a == [] {
      assert a + b == b;
    } else {
      assert (a + b)[0] == a[0] && (a + b)[1..] == a[1..] + b;
      ElapsedOfBoth(a[1..], b);
    }
  }
}
