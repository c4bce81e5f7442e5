/** The connection to the vehicle, with what the ground station reads and sends over it. */
module Connection {
  import opened Deeds
  import opened Reading
  import opened Vehicle
  import opened Wrappers

  /**
   The connection: the world at its far end, a clock, and what is going to happen, which the
   ground station does not know.  After the last event nothing more arrives.
   */
  class Link {
    var world: World
    var events: seq<Event>
    var clock: nat
    /** The messages the ground station has read, and those it has sent. */
    ghost var heard: seq<ToGround>
    ghost var said: seq<ToVehicle>
    /** How many messages had been read, and what time it was, when the last one was sent. */
    ghost var mark: nat
    ghost var sentAt: nat
    /** The world at first, all that was going to happen, and what has befallen the connection since. */
    ghost const first: World
    ghost const coming: seq<Event>
    ghost var trace: seq<Moment>

    /**
     The trace tells how things came to be as they are; in particular, what was read is exactly what
     was delivered while it was looked for, in order.
     */
    ghost predicate Recorded()
      reads `world, `events, `clock, `heard, `said, `trace
    {
      && world == Run(first, trace) && Happened(trace) + events == coming && clock == TimeIn(trace)
      && SentIn(trace) == said && HeardIn(first, trace) == heard
    }

    /** The marks lie in the past, and no more was read than happened. */
    ghost predicate Valid()
      reads this
    {
      Recorded() && mark <= |heard| && sentAt <= clock && |heard| + |events| <= |coming|
    }

    /** Where the connection stands. */
    ghost function View(): Spot
      reads `world, `events, `clock
    {
      Spot(world, events, clock)
    }

    /** What was read since the last message was sent. */
    ghost function Late(): seq<ToGround>
      requires Valid()
      reads this
    {
      heard[mark..]
    }

    constructor (world: World, events: seq<Event>)
      ensures this.world == world && this.events == events && clock == 0 && heard == [] && said == []
      ensures Valid() && trace == [] && first == world && coming == events
    {
      this.world, this.events, clock, heard, said := world, events, 0, [], [];
      mark, sentAt, first, coming, trace := 0, 0, world, events, [];
    }

    method Send(m: ToVehicle)
      requires Valid()
      modifies this`world, this`said, this`mark, this`sentAt, this`trace
      ensures Valid() && world == Sent(old(world), m) && said == old(said) + [m]
      ensures View() == Told(old(View()), m)
      ensures mark == |heard| && sentAt == clock && trace == old(trace) + [Sends(m)]
    {
      hide Run, SentIn, Happened, HeardIn, TimeIn, Sent;
      OneMoment(first, trace, Sends(m));
      world := Sent(world, m);
      said, mark, sentAt, trace := said + [m], |heard|, clock, trace + [Sends(m)];
      assert HeardIn(first, old(trace)) + [] == heard && Happened(old(trace)) + [] == Happened(old(trace));
    }

    /** time.sleep(0.01) */
    method Sleep()
      requires Valid()
      modifies this`clock, this`trace
      ensures Valid() && clock == old(clock) + 1 && View() == Slept(old(View())) && trace == old(trace) + [Sleeps]
    {
      hide Run, SentIn, Happened, HeardIn, TimeIn;
      OneMoment(first, trace, Sleeps);
      clock := clock + 1;
      trace := trace + [Sleeps];
      assert HeardIn(first, old(trace)) + [] == heard && Happened(old(trace)) + [] == Happened(old(trace));
      assert SentIn(old(trace)) + [] == said;
    }

    /** One event happens; a message that it delivers is returned, and read if it is wanted. */
    method Happen(want: Want) returns (msg: Option<ToGround>)
      requires Recorded() && events != []
      modifies this`world, this`events, this`clock, this`heard, this`trace
      ensures Recorded() && trace == old(trace) + [Happens(old(events)[0], want)]
      ensures View() == Passed(old(View())) && msg == Arriving(old(world), old(events))
      ensures heard == old(heard) + (if msg.Some? && Wanted(want, msg.value) then [msg.value] else [])
    {
      hide Run, SentIn, Happened, HeardIn, TimeIn, Step, Wanted;
      var e := events[0];
      msg := Arriving(world, events);
      OneMoment(first, trace, Happens(e, want));
      assert Happened(trace) + events == Happened(trace) + [e] + events[1..];
      assert SentIn(trace) + [] == said;
      heard := heard + (if msg.Some? && Wanted(want, msg.value) then [msg.value] else []);
      trace := trace + [Happens(e, want)];
      world := Step(world, e);
      events := events[1..];
      clock := clock + Ticks(e);
    }

    /**
     recv_match without blocking: the next wanted message that is there, if there is one; other
     messages on the way to it are discarded.  n events pass.
     */
    method RecvMatch(want: Want) returns (msg: Option<ToGround>, ghost n: nat)
      requires Valid()
      modifies this`world, this`events, this`clock, this`heard, this`trace
      ensures Valid() && old(trace) <= trace && (msg, View()) == Read(old(View()), want)
      ensures n <= |old(events)| && events == old(events)[n..] && (old(events) != [] || msg.Some? ==> n > 0)
      ensures clock >= old(clock) && world == After(old(world), old(events)[..n])
      ensures msg.Some? ==> Receives(old(world), old(events)[..n], msg.value) && Wanted(want, msg.value)
      ensures heard == old(heard) + (if msg.Some? then [msg.value] else [])
      ensures var first := Arriving(old(world), old(events));
              first.Some? && Wanted(want, first.value) ==> msg == first && n == 1
    {
      hide Recorded, Step, Wanted, Read;
      n := 0;
      ghost var w, es := world, events;
      while events != []
        invariant heard == old(heard) && old(trace) <= trace && Recorded()
        invariant |heard| + |events| <= |coming| && clock >= old(clock)
        invariant Read(View(), want) == Read(old(View()), want)
        invariant n > 0 ==> Arriving(w, es).None? || !Wanted(want, Arriving(w, es).value)
        invariant n <= |es| && events == es[n..] && world == After(w, es[..n])
        decreases |events|
      {
        assert es[..n + 1][..n] == es[..n] && es[..n + 1][n] == events[0];
        ReadUnfolds(View(), want);
        var e := events[0];
        msg := Happen(want);
        n := n + 1;
        if msg.Some? && Wanted(want, msg.value) {
          return;
        }
        if e.Wait? {
          msg := None;
          return;
        }
      }
      NothingRead(View(), want);
      msg := None;
    }
  }

  /** The last of the events delivers the message, which was on its way until then. */
  ghost predicate Receives(w: World, es: seq<Event>, m: ToGround) {
    && es != [] && es[|es| - 1].Deliver?
    && var before := After(w, es[..|es| - 1]);
       var i := es[|es| - 1].i;
       i < |before.toGround| && before.toGround[i] == m
  }
}
