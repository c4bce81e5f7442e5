/** Runs in which nothing is lost: what upload_mission, download_mission and clear_mission then come to. */
module Schedules {
  import opened Protocol
  import opened Reading
  import opened Vehicle
  import opened Wrappers

  /** Nothing is on its way. */
  predicate Empty(w: World) {
    w.toVehicle == [] && w.toGround == []
  }

  // ----- upload_mission

  /** The vehicle takes what was sent, asks for the k-th item and the question arrives; in the end it accepts. */
  function UploadSchedule(n: nat, k: nat): seq<Event>
    requires k <= n
    decreases n - k
  {
    if k == n then [Take(0, 0), Accept, Deliver(0)]
    else [Take(0, 0), Ask(k), Deliver(0)] + UploadSchedule(n, k + 1)
  }

  /** The first k items. */
  function Staged(items: seq<MissionItem>, k: nat): map<nat, MissionItem>
    requires k <= |items|
  {
    map i: nat | i < k :: items[i]
  }

  /** The vehicle has the first k items. */
  function Receiving(w: World, items: seq<MissionItem>, m: nat, k: nat): World
    requires k <= |items|
  {
    w.(open := Some(Upload(m, |items|, Staged(items, k))))
  }

  /** The count, or the k-th item, is on its way. */
  function Before(w: World, items: seq<MissionItem>, m: nat, k: nat): World
    requires k <= |items|
  {
    if k == 0 then Sent(w, Count(|items|, m))
    else Sent(Receiving(w, items, m, k - 1), ItemInt(items[k - 1]))
  }

  lemma TakesNext(w: World, items: seq<MissionItem>, m: nat, k: nat)
    requires Empty(w) && Numbered(items) && k <= |items|
    ensures Step(Before(w, items, m, k), Take(0, 0)) == Receiving(w, items, m, k)
  {
    if k > 0 {
      assert items[k - 1].seqNo == k - 1;
      assert Staged(items, k - 1)[k - 1 := items[k - 1]] == Staged(items, k);
    } else {
      assert Staged(items, 0) == map[];
    }
  }

  /** The vehicle takes a message, says something, and that arrives. */
  lemma ReadAfterTake(at: Spot, said: Event, x: ToGround, rest: seq<Event>, want: Want, after: World)
    requires at.events == [Take(0, 0), said, Deliver(0)] + rest && at.world.toGround == []
    requires Step(at.world, Take(0, 0)).toGround == [] && !said.Deliver? && !said.Wait? && !said.Elapse?
    requires Step(Step(at.world, Take(0, 0)), said) == after.(toGround := [x]) && after.toGround == []
    requires Wanted(want, x)
    ensures Read(at, want) == (Some(x), Spot(after, rest, at.clock))
  {
    hide Wanted, Read, Step;
    var at1 := Passed(at);
    assert at1.events == [said, Deliver(0)] + rest;
    var at2 := Passed(at1);
    assert at2.events == [Deliver(0)] + rest && at2.world == after.(toGround := [x]);
    ReadUnfolds(at, want);
    ReadUnfolds(at1, want);
    DeliversOne(at2, x, rest, want, after);
  }

  lemma DeliversOne(at: Spot, x: ToGround, rest: seq<Event>, want: Want, after: World)
    requires at.events == [Deliver(0)] + rest && at.world == after.(toGround := [x]) && after.toGround == []
    requires Wanted(want, x)
    ensures Read(at, want) == (Some(x), Spot(after, rest, at.clock))
  {
    hide Wanted;
    assert Removed([x], 0) == [];
    assert Passed(at) == Spot(after, rest, at.clock);
  }

  function Upto(k: nat): (s: set<nat>)
    ensures |s| == k && forall i: nat :: i in s <==> i < k
  {
    if k == 0 then {} else Upto(k - 1) + {k - 1}
  }

  lemma OneRound(at: Spot, items: seq<MissionItem>, m: nat, k: nat, rest: seq<Event>, w: World)
    requires Empty(w) && Numbered(items) && k < |items|
    requires at.world == Before(w, items, m, k) && at.events == [Take(0, 0), Ask(k), Deliver(0)] + rest
    ensures Round(at, items, Upto(k)) ==
            Serving(None, Upto(k + 1), Spot(Before(w, items, m, k + 1), rest, at.clock))
  {
    hide Read, Upto;
    TakesNext(w, items, m, k);
    ReadAfterTake(at, Ask(k), Request(k), rest, UploadAnswers, Receiving(w, items, m, k));
    UptoMore(k);
  }

  lemma UptoMore(k: nat)
    ensures Upto(k + 1) == Upto(k) + {k}
  {}

  lemma {:induction false} ServesAll(at: Spot, items: seq<MissionItem>, m: nat, k: nat, rest: seq<Event>, w: World)
    requires Empty(w) && Numbered(items) && k <= |items|
    requires at.world == Before(w, items, m, k) && at.events == UploadSchedule(|items|, k) + rest
    ensures Serve(at, at.clock, items, Upto(k)) ==
            Serving(None, Upto(|items|), Spot(Before(w, items, m, |items|), UploadSchedule(|items|, |items|) + rest,
                                              at.clock))
    decreases |items| - k
  {
    hide Round, Serve, Before;
    ServeUnfolds(at, at.clock, items, Upto(k));
    if k < |items| {
      var more := UploadSchedule(|items|, k + 1) + rest;
      assert at.events == [Take(0, 0), Ask(k), Deliver(0)] + more;
      OneRound(at, items, m, k, more, w);
      ServesAll(Spot(Before(w, items, m, k + 1), more, at.clock), items, m, k + 1, rest, w);
    }
  }

  lemma Accepts(w: World, items: seq<MissionItem>, m: nat)
    requires Empty(w)
    ensures Step(Receiving(w, items, m, |items|), Accept) ==
            w.(open := None, stored := w.stored[m := items], toGround := [Ack(ACCEPTED, m)])
  {
    var u := Receiving(w, items, m, |items|).open.value;
    assert Listed(u) == items;
  }

  lemma Concludes(at: Spot, items: seq<MissionItem>, m: nat, rest: seq<Event>, w: World)
    requires Empty(w) && Numbered(items)
    requires at.world == Before(w, items, m, |items|) && at.events == [Take(0, 0), Accept, Deliver(0)] + rest
    ensures Conclude(at) ==
            (Uploaded(false), Spot(w.(open := None, stored := w.stored[m := items]), rest, at.clock))
  {
    hide Read, Await;
    TakesNext(w, items, m, |items|);
    Accepts(w, items, m);
    ReadAfterTake(at, Accept, Ack(ACCEPTED, m), rest, Acks, w.(open := None, stored := w.stored[m := items]));
    AwaitUnfolds(at, at.clock + ACK_TIMEOUT, Acks, Acks);
  }

  /**
   When nothing is lost and nothing is left over, an upload of a numbered list returns normally, with
   the acknowledgement behind the last item, and the vehicle stores the list and nothing else.
   */
  lemma UploadSucceeds(at: Spot, items: seq<MissionItem>, m: nat, rest: seq<Event>)
    requires Empty(at.world) && items != [] && Numbered(items)
    requires at.events == UploadSchedule(|items|, 0) + rest
    ensures UploadRun(at, items, m) ==
            (Uploaded(false), Spot(at.world.(open := None, stored := at.world.stored[m := items]), rest, at.clock))
  {
    hide Serve, Conclude, UploadSchedule, Upto;
    var told := Told(at, Count(|items|, m));
    UptoNone();
    ServesAll(told, items, m, 0, rest, at.world);
    LastOfSchedule(|items|);
    Concludes(Spot(Before(at.world, items, m, |items|), UploadSchedule(|items|, |items|) + rest, at.clock),
              items, m, rest, at.world);
  }

  lemma UptoNone()
    ensures Upto(0) == {}
  {}

  lemma LastOfSchedule(n: nat)
    ensures UploadSchedule(n, n) == [Take(0, 0), Accept, Deliver(0)]
  {}

  // ----- download_mission

  /** The vehicle takes a question and its answer arrives, n times. */
  function Answering(n: nat): seq<Event> {
    if n == 0 then [] else [Take(0, 0), Deliver(0)] + Answering(n - 1)
  }

  /** A question is taken and answered. */
  lemma AnswerRead(at: Spot, kept: nat, x: ToGround, rest: seq<Event>, want: Want, after: World)
    requires at.events == [Take(kept, 0), Deliver(0)] + rest && at.world.toGround == []
    requires Step(at.world, Take(kept, 0)) == after.(toGround := [x]) && after.toGround == [] && Wanted(want, x)
    ensures Read(at, want) == (Some(x), Spot(after, rest, at.clock))
  {
    hide Wanted;
    var at1 := Passed(at);
    assert at1.events == [Deliver(0)] + rest && at1.world == after.(toGround := [x]);
    DeliversOne(at1, x, rest, want, after);
  }

  /** The items from the k-th on. */
  lemma {:induction false} FetchesAll(at: Spot, m: nat, k: nat, rest: seq<Event>)
    requires Empty(at.world) && k <= |Held(at.world, m)|
    requires at.events == Answering(|Held(at.world, m)| - k) + rest
    ensures FetchRun(at, m, |Held(at.world, m)|, k) ==
            (Some(Reported(Held(at.world, m), m)[k..]), Spot(at.world, rest, at.clock))
    decreases |Held(at.world, m)| - k
  {
    hide Read, Await, FetchRun;
    var list := Held(at.world, m);
    var n := |list|;
    if k == n {
      FetchEnds(at, m, n);
      assert at.events == rest;
    } else {
      var asked := Told(at, RequestItem(k, m));
      var more := Answering(n - k - 1) + rest;
      assert at.events == [Take(0, 0), Deliver(0)] + more;
      AnswerRead(asked, 0, ItemIs(Reply(list, m, k)), more, Items, at.world);
      AwaitUnfolds(asked, at.clock + ITEM_TIMEOUT, Items, ItemOf(m, k));
      FetchUnfolds(at, m, n, k);
      FetchesAll(Spot(at.world, more, at.clock), m, k + 1, rest);
      assert Reported(list, m)[k..] == [Reply(list, m, k)] + Reported(list, m)[k + 1..];
    }
  }

  /**
   When nothing is lost a download returns the stored list, as the vehicle reports it; no list is
   changed, and an upload that was open is given up.
   */
  lemma DownloadSucceeds(at: Spot, m: nat, rest: seq<Event>)
    requires Empty(at.world) && at.events == Answering(1 + |Held(at.world, m)|) + rest
    ensures DownloadRun(at, m).0 == Some(Reported(Held(at.world, m), m))
    ensures DownloadRun(at, m).1.world.stored == at.world.stored && DownloadRun(at, m).1.events == rest
  {
    hide Read, Await, FetchRun;
    var list := Held(at.world, m);
    var asked := Told(at, RequestList(m));
    var more := Answering(|list|) + rest;
    var closed := at.world.(open := None);
    assert at.events == [Take(0, 0), Deliver(0)] + more;
    AnswerRead(asked, 0, CountIs(|list|, m), more, Counts, closed);
    AwaitUnfolds(asked, at.clock + COUNT_TIMEOUT, Counts, CountOf(m));
    FetchesAll(Spot(closed, more, at.clock), m, 0, rest);
    DownloadRunUnfolds(at, m);
    assert Reported(list, m)[0..] == Reported(list, m);
  }

  // ----- clear_mission

  /**
   When nothing is lost a clear returns normally exactly when the vehicle keeps no more than it may;
   it says what is left otherwise.
   */
  lemma ClearSucceeds(at: Spot, m: nat, kept: nat, rest: seq<Event>)
    requires Empty(at.world)
    requires at.events == [Take(kept, 0), Deliver(0)] + Answering(1 + |Kept(Held(at.world, m), kept)|) + rest
    ensures var left := |Kept(Held(at.world, m), kept)|;
            ClearRun(at, m).0 == if left <= Remaining(m) then Cleared else StillPresent(left)
    ensures Held(ClearRun(at, m).1.world, m) == Kept(Held(at.world, m), kept)
  {
    hide Read, Await, DownloadRun;
    var list := Kept(Held(at.world, m), kept);
    var asked := Told(at, ClearAll(m));
    var cut := at.world.(open := None, stored := at.world.stored[m := list]);
    var more := Answering(1 + |list|) + rest;
    assert at.events == [Take(kept, 0), Deliver(0)] + more;
    AnswerRead(asked, kept, Ack(0, m), more, Acks, cut);
    AwaitUnfolds(asked, at.clock + CLEAR_TIMEOUT, Acks, AckOf(m));
    DownloadSucceeds(Spot(cut, more, at.clock), m, rest);
  }

  // ----- runs in which nothing happens any more

  lemma {:induction false} SilentWait(at: Spot, deadline: nat, want: Want, accepted: Want)
    requires at.events == []
    ensures Await(at, deadline, want, accepted) ==
            (None, at.(clock := if at.clock < deadline then deadline else at.clock))
    decreases deadline - at.clock
  {
    AwaitUnfolds(at, deadline, want, accepted);
    if at.clock < deadline {
      SilentWait(Slept(at), deadline, want, accepted);
    }
  }

  lemma {:induction false} SilentServe(at: Spot, start: nat, items: seq<MissionItem>, sent: set<nat>)
    requires at.events == [] && |sent| < |items| && start <= at.clock <= start + 1001
    ensures Serve(at, start, items, sent) == Serving(Some(TimedOut), sent, at.(clock := start + 1001))
    decreases start + 1001 - at.clock
  {
    hide Serve;
    ServeUnfolds(at, start, items, sent);
    if at.clock <= start + 1000 {
      SilentServe(Slept(at), start, items, sent);
    }
  }

  /** After so many ticks of ten milliseconds each gives up: ten seconds, and five for an item and a clear. */
  lemma SilentLine(at: Spot, items: seq<MissionItem>, m: nat, n: nat, k: nat)
    requires at.events == []
    ensures items != [] ==>
              UploadRun(at, items, m) == (TimedOut, Told(at, Count(|items|, m)).(clock := at.clock + 1001))
    ensures Conclude(at) == (TimedOut, at.(clock := at.clock + 500))
    ensures DownloadRun(at, m) == (None, Told(at, RequestList(m)).(clock := at.clock + 1000))
    ensures k < n ==> FetchRun(at, m, n, k) == (None, Told(at, RequestItem(k, m)).(clock := at.clock + 500))
    ensures ClearRun(at, m) == (ClearTimedOut, Told(at, ClearAll(m)).(clock := at.clock + 500))
  {
    hide Await, Serve;
    if items != [] {
      SilentServe(Told(at, Count(|items|, m)), at.clock, items, {});
    }
    SilentWait(at, at.clock + ACK_TIMEOUT, Acks, Acks);
    SilentWait(Told(at, RequestList(m)), at.clock + COUNT_TIMEOUT, Counts, CountOf(m));
    SilentWait(Told(at, RequestItem(k, m)), at.clock + ITEM_TIMEOUT, Items, ItemOf(m, k));
    SilentWait(Told(at, ClearAll(m)), at.clock + CLEAR_TIMEOUT, Acks, AckOf(m));
  }
}
