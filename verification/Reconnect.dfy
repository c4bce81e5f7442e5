/** The client over any run of polls: when it is connected, and when it connects again. */
module Reconnect {
  import opened Bytes
  import opened Framing
  import opened SocketClient
  import opened Wrappers

  /** What one poll meets: the time, what a connection attempt would come to, and what recv returns. */
  datatype Tick = Tick(now: nat, attempt: Attempt, event: Received)

  /** Not connected, when the last attempt was made and how many were refused since; or the bytes buffered. */
  datatype Life = Down(last: nat, refusals: nat) | Up(last: nat, buffered: bytes)

  /** Half a second, doubled by each refusal up to eight seconds, and then ten. */
  function Interval(refusals: nat): nat {
    if refusals >= 5 then 10000 else [500, 1000, 2000, 4000, 8000][refusals]
  }

  /** The interval has passed since the last attempt. */
  predicate Due(life: Life, now: nat)
    requires life.Down?
  {
    now >= life.last + Interval(life.refusals)
  }

  function Waited(life: Life, t: Tick): Life
    requires life.Down?
  {
    if !Due(life, t.now) then life
    else if t.attempt.Accepted? then Up(t.now, [])
    else Down(t.now, if t.attempt.Refused? then life.refusals + 1 else life.refusals)
  }

  /** A connection ends when the peer closes it, when recv fails, and when too large a frame is announced. */
  function Served(life: Life, t: Tick, accepts: bytes -> bool): Life
    requires life.Up?
  {
    if t.event.PeerClosed? || t.event.RecvError? then Down(life.last, 0)
    else
      var x := Extract(life.buffered + (if t.event.Data? then t.event.bytes else []), accepts);
      if x.Oversized? then Down(life.last, 0) else Up(life.last, x.rest)
  }

  function Lived(life: Life, t: Tick, accepts: bytes -> bool): Life {
    if life.Down? then Waited(life, t) else Served(life, t, accepts)
  }

  function Lives(life: Life, ticks: seq<Tick>, accepts: bytes -> bool): Life {
    if ticks == [] then life
    else Lived(Lives(life, ticks[..|ticks| - 1], accepts), ticks[|ticks| - 1], accepts)
  }

  /** The client shows that life. */
  ghost predicate Shows(c: Client, life: Life)
    reads c, c.buf
  {
    && c.Valid() && c.lastConnectAttempt == life.last
    && match life
       case Down(_, k) => !c.connected && c.refusals == k
       case Up(_, b) => c.connected && c.refusals == 0 && c.Buffered() == b
  }

  /** Time does not run backwards, and recv returns no more than it is asked for. */
  predicate Plausible(life: Life, ticks: seq<Tick>, accepts: bytes -> bool) {
    forall i :: 0 <= i < |ticks| ==> PlausibleAt(Lives(life, ticks[..i], accepts), ticks[i])
  }

  predicate PlausibleAt(life: Life, t: Tick) {
    && t.now >= life.last
    && (life.Up? && t.event.Data? ==> 0 < |t.event.bytes| <= 8192 - |life.buffered|)
  }

  lemma IntervalIsBackoff(k: nat)
    ensures Backoff(k) == Interval(k)
  {
    BackoffIs(k);
  }

  method PollOnce(c: Client, t: Tick, ghost life: Life, accepts: bytes -> bool) returns (frame: Option<bytes>)
    requires Shows(c, life) && PlausibleAt(life, t)
    modifies c, c.buf
    ensures Shows(c, Lived(life, t, accepts))
  {
    hide Extract, Backoff, Frames;
    if life.Down? {
      IntervalIsBackoff(life.refusals);
    }
    var event := t.event;
    if !c.connected && event.Data? {
      event := WouldBlock;
    }
    if event.WouldBlock? {
      assert c.Buffered() + [] == c.Buffered();
    }
    frame := c.Poll(event, t.now, t.attempt, accepts);
  }

  /** Over every run of polls the client is connected exactly when that life is up. */
  method RunTicks(c: Client, ticks: seq<Tick>, ghost life: Life, accepts: bytes -> bool)
    requires Shows(c, life) && Plausible(life, ticks, accepts)
    modifies c, c.buf
    ensures Shows(c, Lives(life, ticks, accepts))
  {
    for i := 0 to |ticks|
      invariant Shows(c, Lives(life, ticks[..i], accepts))
    {
      assert PlausibleAt(Lives(life, ticks[..i], accepts), ticks[i]);
      OneMoreTick(life, ticks, i, accepts);
      var _ := PollOnce(c, ticks[i], Lives(life, ticks[..i], accepts), accepts);
    }
    assert ticks[..|ticks|] == ticks;
  }

  lemma OneMoreTick(life: Life, ticks: seq<Tick>, i: nat, accepts: bytes -> bool)
    requires i < |ticks|
    ensures Lives(life, ticks[..i + 1], accepts) == Lived(Lives(life, ticks[..i], accepts), ticks[i], accepts)
  {
    assert ticks[..i + 1][..i] == ticks[..i];
  }

  /** At the i-th poll, nobody having accepted before, the interval has passed and the peer accepts. */
  predicate Connects(life: Life, ticks: seq<Tick>, i: nat, accepts: bytes -> bool)
    requires i < |ticks|
  {
    var before := Lives(life, ticks[..i], accepts);
    before.Down? && Due(before, ticks[i].now) && ticks[i].attempt.Accepted?
  }

  /** As long as that has not come about a client that is not connected stays so. */
  lemma {:induction false} StaysDown(life: Life, ticks: seq<Tick>, n: nat, accepts: bytes -> bool)
    requires n <= |ticks| && life.Down? && forall i: nat :: i < n ==> !Connects(life, ticks, i, accepts)
    ensures Lives(life, ticks[..n], accepts).Down?
    decreases n
  {
    hide Served;
    if n == 0 {
      assert ticks[..0] == [];
    } else {
      StaysDown(life, ticks, n - 1, accepts);
      OneMoreTick(life, ticks, n - 1, accepts);
      assert !Connects(life, ticks, n - 1, accepts);
    }
  }

  /** It is connected after the first poll at which the interval has passed and the peer accepts, and not before. */
  lemma ConnectsFirst(life: Life, ticks: seq<Tick>, i: nat, accepts: bytes -> bool)
    requires life.Down? && i < |ticks| && Connects(life, ticks, i, accepts)
    requires forall j: nat :: j < i ==> !Connects(life, ticks, j, accepts)
    ensures forall j: nat :: j <= i ==> Lives(life, ticks[..j], accepts).Down?
    ensures Lives(life, ticks[..i + 1], accepts) == Up(ticks[i].now, [])
  {
    hide Lived;
    forall j: nat | j <= i
      ensures Lives(life, ticks[..j], accepts).Down?
    {
      StaysDown(life, ticks, j, accepts);
    }
    OneMoreTick(life, ticks, i, accepts);
    NowUp(Lives(life, ticks[..i], accepts), ticks[i], accepts);
  }

  lemma NowUp(life: Life, t: Tick, accepts: bytes -> bool)
    requires life.Down? && Due(life, t.now) && t.attempt.Accepted?
    ensures Lived(life, t, accepts) == Up(t.now, [])
  {}

  /** Refused, just when the interval after so many refusals has passed. */
  predicate RefusedAtOnce(ticks: seq<Tick>, i: nat)
    requires i < |ticks|
  {
    && ticks[i].attempt.Refused?
    && ticks[i].now == (if i == 0 then 0 else ticks[i - 1].now) +
                       (if i < 5 then [500, 1000, 2000, 4000, 8000][i] else 10000)
  }

  /** While attempts are refused the intervals are 500, 1000, 2000, 4000, 8000 and then 10000 milliseconds. */
  lemma {:induction false} RefusedIntervals(ticks: seq<Tick>, accepts: bytes -> bool)
    requires forall i :: 0 <= i < |ticks| ==> RefusedAtOnce(ticks, i)
    ensures Lives(Down(0, 0), ticks, accepts) == Down(if ticks == [] then 0 else ticks[|ticks| - 1].now, |ticks|)
    decreases |ticks|
  {
    hide Served;
    if ticks != [] {
      var n := |ticks| - 1;
      var front := ticks[..n];
      forall i | 0 <= i < n
        ensures RefusedAtOnce(front, i)
      {
        assert RefusedAtOnce(ticks, i);
      }
      RefusedIntervals(front, accepts);
      assert RefusedAtOnce(ticks, n);
    }
  }

  /** After a disconnect the interval is half a second again, from the attempt that had been accepted. */
  lemma ConnectsAgain(life: Life, t: Tick, next: Tick, accepts: bytes -> bool)
    requires life.Up? && Served(life, t, accepts).Down?
    ensures var down := Served(life, t, accepts);
            Waited(down, next) == if next.now < life.last + 500 then down
                                  else if next.attempt.Accepted? then Up(next.now, [])
                                  else Down(next.now, if next.attempt.Refused? then 1 else 0)
  {}
}
