/** The ground station's side of the mission protocol: upload, download, clear, verify. */
module Mission {
  import opened Connection
  import opened Deeds
  import opened Protocol
  import opened Reading
  import opened Vehicle
  import opened Wrappers

  // ----- upload_mission

  /** What upload_mission is entitled to: a line without leftovers and a vehicle that keeps the rules. */
  ghost predicate Ready(link: Link)
    reads link`world, link`events
  {
    Fresh(link.world) && Honest(link.events)
  }

  /** During an upload that started from the world `start`. */
  ghost predicate Under(link: Link, items: seq<MissionItem>, m: nat, sent: set<nat>, start: World)
    reads link`world, link`events
  {
    && Uploading(link.world, items, m, sent) && Honest(link.events)
    && OthersUntouched(link.world, m, start)
  }

  ghost predicate OthersUntouched(w: World, m: nat, start: World) {
    && (forall t: nat :: t != m ==> Held(w, t) == Held(start, t))
    && (NoLists(start) ==> NoLists(w))
  }

  /** How an upload ends: a normal return means that the vehicle stores the list. */
  ghost predicate Ended(link: Link, items: seq<MissionItem>, m: nat, start: World, outcome: UploadOutcome)
    reads link`world, link`events
  {
    && (outcome.Uploaded? ==> !outcome.early && Held(link.world, m) == items && Ready(link))
    && OthersUntouched(link.world, m, start) && Honest(link.events)
  }

  lemma UnderKept(w: World, es: seq<Event>, items: seq<MissionItem>, m: nat, sent: set<nat>, start: World)
    requires Uploading(w, items, m, sent) && Honest(es) && OthersUntouched(w, m, start)
    ensures Uploading(After(w, es), items, m, sent) && OthersUntouched(After(w, es), m, start)
  {
    hide Uploading, After, NoLists;
    UploadKept(w, es, items, m, sent);
    if NoLists(start) {
      NoListsKept(w, es);
    }
  }

  lemma AcceptanceRead(w: World, es: seq<Event>, msg: ToGround, items: seq<MissionItem>, m: nat, sent: set<nat>)
    requires Uploading(w, items, m, sent) && Honest(es) && Receives(w, es, msg) && IsAccept(msg)
    ensures Held(After(w, es), m) == items && Fresh(After(w, es)) && |sent| >= |items|
  {
    hide Uploading, Fresh, Step;
    var before := After(w, es[..|es| - 1]);
    UploadKept(w, es[..|es| - 1], items, m, sent);
    AcceptanceReached(before, es[|es| - 1].i, items, m, sent);
    AllSent(sent, |items|);
  }

  lemma {:induction false} AllSent(sent: set<nat>, n: nat)
    requires forall k :: 0 <= k < n ==> k in sent
    ensures |sent| >= n
  {
    if n > 0 {
      AllSent(sent - {n - 1}, n - 1);
    }
  }

  /** The next thing to happen is that an acceptance from before arrives. */
  predicate LeftoverArrives(w: World, es: seq<Event>) {
    var first := Arriving(w, es);
    first.Some? && IsAccept(first.value)
  }

  /** The types of the lists that were to be cleared, in the order in which that was sent. */
  function Clears(said: seq<ToVehicle>): seq<nat> {
    if said == [] then []
    else
      var last := said[|said| - 1];
      Clears(said[..|said| - 1]) + if last.ClearAll? then [last.missionType] else []
  }

  lemma ClearsMore(said: seq<ToVehicle>, m: ToVehicle)
    ensures Clears(said + [m]) == Clears(said) + if m.ClearAll? then [m.missionType] else []
  {
    assert (said + [m])[..|said|] == said;
  }

  /** An upload asks for no clear. */
  lemma UploadClearsNothing(said: seq<ToVehicle>, n: nat, m: nat, heard: seq<ToGround>, items: seq<MissionItem>)
    ensures Clears(said + [Count(n, m)] + Answers(heard, items)) == Clears(said)
  {
    ClearsMore(said, Count(n, m));
    AnswersClearNothing(said + [Count(n, m)], heard, items);
  }

  lemma {:induction false} AnswersClearNothing(said: seq<ToVehicle>, heard: seq<ToGround>, items: seq<MissionItem>)
    ensures Clears(said + Answers(heard, items)) == Clears(said)
    decreases |heard|
  {
    if heard == [] {
      assert said + [] == said;
    } else {
      var last := heard[|heard| - 1];
      var before := Answers(heard[..|heard| - 1], items);
      AnswersClearNothing(said, heard[..|heard| - 1], items);
      if GoodRequest(last, items) {
        ClearsMore(said + before, ItemInt(items[last.seqNo]));
        assert said + (before + [ItemInt(items[last.seqNo])]) == said + before + [ItemInt(items[last.seqNo])];
      } else {
        assert before + [] == before;
      }
    }
  }

  // What upload_mission does, told by the messages it reads: `heard` are those of one call.

  predicate OnlyGoodRequests(heard: seq<ToGround>, items: seq<MissionItem>) {
    forall i :: 0 <= i < |heard| ==> GoodRequest(heard[i], items)
  }

  /** Every request for an item of the list is answered with that item, in turn. */
  function Answers(heard: seq<ToGround>, items: seq<MissionItem>): seq<ToVehicle> {
    if heard == [] then []
    else
      var last := heard[|heard| - 1];
      Answers(heard[..|heard| - 1], items) + if GoodRequest(last, items) then [ItemInt(items[last.seqNo])] else []
  }

  /** The numbers asked for. */
  function Asked(heard: seq<ToGround>, items: seq<MissionItem>): set<nat> {
    if heard == [] then {}
    else
      var last := heard[|heard| - 1];
      Asked(heard[..|heard| - 1], items) + if GoodRequest(last, items) then {last.seqNo} else {}
  }

  /** The message that ended it, or None when time ran out, and all that came before. */
  ghost predicate EndsWith(heard: seq<ToGround>, items: seq<MissionItem>, last: Option<ToGround>) {
    if last.None? then OnlyGoodRequests(heard, items)
    else heard != [] && heard[|heard| - 1] == last.value && OnlyGoodRequests(heard[..|heard| - 1], items)
  }

  /** How the outcome follows from the messages and the time that passed. */
  ghost predicate Follows(outcome: UploadOutcome, heard: seq<ToGround>, items: seq<MissionItem>, ticks: int) {
    match outcome
    case NothingToUpload => false
    case Uploaded(early) =>
      && (exists m: ToGround :: IsAccept(m) && EndsWith(heard, items, Some(m)))
      && early == (|Asked(heard, items)| < |items|)
    case Rejected(kind) =>
      exists m: ToGround :: m.Ack? && m.kind == kind != ACCEPTED && EndsWith(heard, items, Some(m))
    case BadRequest(k) => k >= |items| && EndsWith(heard, items, Some(Request(k)))
    case TimedOut =>
      && EndsWith(heard, items, None)
      && if |Asked(heard, items)| < |items| then ticks > REQUEST_TIMEOUT else ticks >= ACK_TIMEOUT
  }

  lemma OneMoreHeard(heard: seq<ToGround>, m: ToGround, items: seq<MissionItem>)
    ensures Answers(heard + [m], items) ==
            Answers(heard, items) + if GoodRequest(m, items) then [ItemInt(items[m.seqNo])] else []
    ensures Asked(heard + [m], items) == Asked(heard, items) + if GoodRequest(m, items) then {m.seqNo} else {}
    ensures OnlyGoodRequests(heard, items) ==> EndsWith(heard + [m], items, Some(m))
    ensures OnlyGoodRequests(heard, items) && GoodRequest(m, items) ==> OnlyGoodRequests(heard + [m], items)
  {
    assert (heard + [m])[..|heard|] == heard;
  }

  /** What is new in a log. */
  function Since<T>(now: seq<T>, before: seq<T>): seq<T>
    requires |before| <= |now|
  {
    now[|before|..]
  }

  lemma SinceTwice<T>(a: seq<T>, b: seq<T>, c: seq<T>)
    requires a <= b <= c
    ensures Since(c, a) == Since(b, a) + Since(c, b)
  {}

  /**
   upload_mission.  A normal return of a run that began without leftovers means that the vehicle
   stores exactly the list, and it never comes before every item was sent.  Acknowledgements are
   taken whatever their mission type is, so one that is left over is believed.
   */
  method UploadMission(link: Link, items: seq<MissionItem>, missionType: nat) returns (outcome: UploadOutcome)
    requires link.Valid()
    modifies link
    ensures link.Valid() && old(link.trace) <= link.trace
    ensures (outcome, link.View()) == UploadRun(old(link.View()), items, missionType)
    ensures outcome.NothingToUpload? <==> items == []
    ensures items == [] ==> link.world == old(link.world) && link.events == old(link.events)
    ensures old(link.heard) <= link.heard && old(link.clock) <= link.clock
    ensures items == [] ==>
              link.said == old(link.said) && link.heard == old(link.heard) && link.clock == old(link.clock)
    ensures items != [] ==>
              var heard := Since(link.heard, old(link.heard));
              && link.said == old(link.said) + [Count(|items|, missionType)] + Answers(heard, items)
              && Follows(outcome, heard, items, link.clock - old(link.clock))
    ensures old(Ready(link)) && Numbered(items) && items != [] ==>
              Ended(link, items, missionType, old(link.world), outcome)
    ensures items != [] && LeftoverArrives(old(link.world), old(link.events)) ==>
              outcome == Uploaded(true) && link.world.stored == old(link.world.stored)
  {
    hide UploadRun, Serve, Conclude, Told, After, Uploading, OthersUntouched;
    hide Follows, Under, Ended, Answers, Asked, Fresh, Honest, Numbered, OnlyGoodRequests, LeftoverArrives;
    hide Link.Recorded;
    UploadRunUnfolds(link.View(), items, missionType);
    if items == [] {
      return NothingToUpload;
    }
    LeftoverStays(link.world, link.events, Count(|items|, missionType));
    ghost var start, ready := link.world, Ready(link) && Numbered(items);
    link.Send(Count(|items|, missionType));
    if ready {
      UnderStarts(link, start, items, missionType);
    }
    var done, sent := SendItems(link, items, missionType, start, ready);
    if done.Some? {
      SomethingFollows(done.value, Since(link.heard, old(link.heard)), items, link.clock - old(link.clock));
      return done.value;
    }
    ghost var between, since := link.heard, link.clock;
    outcome := AwaitAck(link, items, missionType, sent, Since(between, old(link.heard)), start, ready);
    SinceTwice(old(link.heard), between, link.heard);
    LaterFollows(outcome, Since(link.heard, old(link.heard)), items, link.clock - since, link.clock - old(link.clock));
  }

  lemma SomethingFollows(outcome: UploadOutcome, heard: seq<ToGround>, items: seq<MissionItem>, ticks: int)
    requires Follows(outcome, heard, items, ticks)
    ensures !outcome.NothingToUpload?
  {}

  /** More time passing does not change what follows. */
  lemma LaterFollows(outcome: UploadOutcome, heard: seq<ToGround>, items: seq<MissionItem>, ticks: int, later: int)
    requires Follows(outcome, heard, items, ticks) && ticks <= later
    ensures Follows(outcome, heard, items, later) && !outcome.NothingToUpload?
  {}

  lemma LeftoverStays(w: World, es: seq<Event>, m: ToVehicle)
    ensures LeftoverArrives(Sent(w, m), es) == LeftoverArrives(w, es)
  {}

  lemma UnderStarts(link: Link, start: World, items: seq<MissionItem>, m: nat)
    requires Fresh(start) && link.world == Sent(start, Count(|items|, m)) && Honest(link.events)
    ensures Under(link, items, m, {}, start)
  {
    UploadStarts(start, items, m);
  }

  /** The first loop: every requested item is sent, until each was sent at least once. */
  method SendItems(link: Link, items: seq<MissionItem>, missionType: nat, ghost start: World, ghost ready: bool)
    returns (done: Option<UploadOutcome>, ghost sent: set<nat>)
    requires ready ==> Numbered(items) && Under(link, items, missionType, {}, start)
    requires link.Valid()
    modifies link
    ensures link.Valid() && old(link.trace) <= link.trace
    ensures Serving(done, sent, link.View()) == Serve(old(link.View()), old(link.clock), items, {})
    ensures old(link.heard) <= link.heard && old(link.clock) <= link.clock
    ensures var heard := Since(link.heard, old(link.heard));
            && link.said == old(link.said) + Answers(heard, items)
            && (done.Some? ==> Follows(done.value, heard, items, link.clock - old(link.clock)))
            && (done.None? ==> OnlyGoodRequests(heard, items) && |Asked(heard, items)| >= |items|)
    ensures ready ==>
              if done.Some? then Ended(link, items, missionType, start, done.value)
              else Under(link, items, missionType, sent, start)
    ensures items != [] && LeftoverArrives(old(link.world), old(link.events)) ==>
              done == Some(Uploaded(true)) && link.world.stored == old(link.world.stored)
  {
    hide Serve, Round;
    hide Under, Ended, Follows, LeftoverArrives, Answers, Answering, Verdict, Answered, Numbered, Link.Valid;
    var itemsSent: set<nat> := {};
    var startTime := link.clock;
    NothingHeard(link.said, items);
    assert Since(link.heard, link.heard) == [];
    while |itemsSent| < |items|
      invariant link.Valid() && old(link.trace) <= link.trace
      invariant Serve(link.View(), startTime, items, itemsSent) == Serve(old(link.View()), startTime, items, {})
      invariant startTime <= link.clock && old(link.heard) <= link.heard
      invariant Answering(Since(link.heard, old(link.heard)), link.said, old(link.said), items, itemsSent)
      invariant ready ==> Under(link, items, missionType, itemsSent, start)
      invariant LeftoverArrives(old(link.world), old(link.events)) ==>
                  link.world == old(link.world) && link.events == old(link.events) && link.clock == startTime
                        && itemsSent == {}
      decreases |link.events|, startTime + REQUEST_TIMEOUT + 1 - link.clock
    {
      ServeUnfolds(link.View(), startTime, items, itemsSent);
      if link.clock - startTime > REQUEST_TIMEOUT {
        done := Some(TimedOut);
        TimeRanOut(Since(link.heard, old(link.heard)), link.said, old(link.said), items, itemsSent,
              link.clock - startTime);
        if ready {
          UnderEnds(link, items, missionType, itemsSent, start, TimedOut);
        }
        return done, itemsSent;
      }
      ghost var heard, said, sentBefore := link.heard, link.said, itemsSent;
      done, itemsSent := SendNext(link, items, missionType, itemsSent, start, ready);
      if link.heard != heard {
        AnsweringGoesOn(old(link.heard), heard, link.heard, old(link.said), said, link.said, items, sentBefore,
              itemsSent, done, link.clock - startTime);
      }
      if done.Some? {
        return done, itemsSent;
      }
    }
    AnsweringEnds(Since(link.heard, old(link.heard)), link.said, old(link.said), items, itemsSent);
    ServeUnfolds(link.View(), startTime, items, itemsSent);
    return None, itemsSent;
  }

  /** The logs while requests are answered: the items sent are those asked for. */
  ghost predicate Answering(heard: seq<ToGround>, now: seq<ToVehicle>, before: seq<ToVehicle>, items: seq<MissionItem>,
                            sent: set<nat>)
  {
    OnlyGoodRequests(heard, items) && sent == Asked(heard, items) && now == before + Answers(heard, items)
  }

  /** What one message makes of the upload: an item is sent, or the upload comes to an end. */
  predicate Answered(m: ToGround, items: seq<MissionItem>, sent: set<nat>, sent': set<nat>, done: Option<UploadOutcome>,
                     before: seq<ToVehicle>, now: seq<ToVehicle>)
  {
    if GoodRequest(m, items) then
      done.None? && sent' == sent + {m.seqNo} && now == before + [ItemInt(items[m.seqNo])]
    else
      && (m.Ack? || (m.Request? && m.seqNo >= |items|)) && done == Some(Verdict(m, true))
      && sent' == sent && now == before
  }

  lemma AnsweringGoesOn(start: seq<ToGround>, earlier: seq<ToGround>, heard: seq<ToGround>, first: seq<ToVehicle>,
          before: seq<ToVehicle>, now: seq<ToVehicle>, items: seq<MissionItem>, sent: set<nat>, sent': set<nat>,
          done: Option<UploadOutcome>, ticks: int)
    requires start <= earlier && heard != [] && heard == earlier + [heard[|heard| - 1]] && |sent| < |items|
    requires Answering(Since(earlier, start), before, first, items, sent)
    requires Answered(heard[|heard| - 1], items, sent, sent', done, before, now)
    ensures start <= heard
    ensures done.None? ==> Answering(Since(heard, start), now, first, items, sent')
    ensures done.Some? ==>
              && Follows(done.value, Since(heard, start), items, ticks)
              && now == first + Answers(Since(heard, start), items)
  {
    hide Follows, Answers, Asked, OnlyGoodRequests;
    assert Since(heard, start) == Since(earlier, start) + [heard[|heard| - 1]];
    HeardNext(Since(earlier, start), Since(heard, start), items, ticks);
  }

  lemma AnsweringEnds(heard: seq<ToGround>, now: seq<ToVehicle>, before: seq<ToVehicle>, items: seq<MissionItem>,
          sent: set<nat>)
    requires Answering(heard, now, before, items, sent) && |sent| >= |items|
    ensures OnlyGoodRequests(heard, items) && |Asked(heard, items)| >= |items| && now == before + Answers(heard, items)
  {}

  /** One round: wait, answer a request, or come to an end. */
  method SendNext(link: Link, items: seq<MissionItem>, missionType: nat, sent: set<nat>, ghost start: World,
            ghost ready: bool)
    returns (done: Option<UploadOutcome>, sent': set<nat>)
    requires |sent| < |items|
    requires ready ==> Numbered(items) && Under(link, items, missionType, sent, start)
    requires link.Valid()
    modifies link
    ensures link.Valid() && old(link.trace) <= link.trace
    ensures Serving(done, sent', link.View()) == Round(old(link.View()), items, sent)
    ensures old(link.clock) <= link.clock
    ensures |link.events| < |old(link.events)| || (link.events == old(link.events) && link.clock > old(link.clock))
    ensures link.heard == old(link.heard) ==> done.None? && sent' == sent && link.said == old(link.said)
    ensures link.heard != old(link.heard) ==>
              && link.heard != [] && link.heard == old(link.heard) + [link.heard[|link.heard| - 1]]
              && Answered(link.heard[|link.heard| - 1], items, sent, sent', done, old(link.said), link.said)
    ensures ready ==>
              if done.Some? then Ended(link, items, missionType, start, done.value)
              else Under(link, items, missionType, sent', start)
    ensures LeftoverArrives(old(link.world), old(link.events)) ==>
              done == Some(Uploaded(true)) && link.world.stored == old(link.world.stored)
  {
    hide Uploading, Fresh, Honest, Receives, After, LeftoverArrives, OthersUntouched, Link.Valid;
    done, sent' := None, sent;
    ghost var w, es := link.world, link.events;
    var msg, n := link.RecvMatch(UploadAnswers);
    HonestRest(es, n);
    if LeftoverArrives(w, es) {
      LeftoverRead(w, es, msg, n);
    }
    if ready {
      UnderKept(w, es[..n], items, missionType, sent, start);
    }
    if msg.None? {
      link.Sleep();
    } else if msg.value.Ack? {
      if ready && IsAccept(msg.value) {
        AcceptanceRead(w, es[..n], msg.value, items, missionType, sent);
      }
      done := Some(if msg.value.kind == ACCEPTED then Uploaded(true) else Rejected(msg.value.kind));
    } else {
      var k := msg.value.seqNo;
      if k >= |items| {
        return Some(BadRequest(k)), sent;
      }
      if ready {
        ItemSent(link.world, items, missionType, sent, k);
        OthersStay(link.world, missionType, start, ItemInt(items[k]));
      }
      link.Send(ItemInt(items[k]));
      sent' := sent + {k};
    }
  }

  lemma OthersStay(w: World, m: nat, start: World, said: ToVehicle)
    requires OthersUntouched(w, m, start) && said.ItemInt?
    ensures OthersUntouched(Sent(w, said), m, start)
  {}

  lemma HonestRest(es: seq<Event>, n: nat)
    requires n <= |es|
    ensures Honest(es) ==> Honest(es[..n]) && Honest(es[n..])
  {}

  lemma LeftoverRead(w: World, es: seq<Event>, msg: Option<ToGround>, n: nat)
    requires LeftoverArrives(w, es)
    requires var first := Arriving(w, es); first.Some? && Wanted(UploadAnswers, first.value) ==> msg == first && n == 1
    ensures n == 1 && msg.Some? && IsAccept(msg.value) && After(w, es[..n]).stored == w.stored
  {
    assert es[..1] == [es[0]] && After(w, [es[0]]) == Step(w, es[0]);
  }

  lemma NothingHeard(said: seq<ToVehicle>, items: seq<MissionItem>)
    ensures Answering([], said, said, items, {})
  {}

  lemma TimeRanOut(heard: seq<ToGround>, now: seq<ToVehicle>, before: seq<ToVehicle>, items: seq<MissionItem>,
          sent: set<nat>, ticks: int)
    requires Answering(heard, now, before, items, sent) && |sent| < |items| && ticks > REQUEST_TIMEOUT
    ensures Follows(TimedOut, heard, items, ticks) && now == before + Answers(heard, items)
  {}

  lemma UnderEnds(link: Link, items: seq<MissionItem>, m: nat, sent: set<nat>, start: World, outcome: UploadOutcome)
    requires Under(link, items, m, sent, start) && !outcome.Uploaded?
    ensures Ended(link, items, m, start, outcome)
  {}

  /** What the logs say after one more message. */
  lemma HeardNext(before: seq<ToGround>, after: seq<ToGround>, items: seq<MissionItem>, ticks: int)
    requires OnlyGoodRequests(before, items) && after != [] && after == before + [after[|after| - 1]]
    ensures var m := after[|after| - 1];
            if GoodRequest(m, items) then
              && OnlyGoodRequests(after, items) && Asked(after, items) == Asked(before, items) + {m.seqNo}
              && Answers(after, items) == Answers(before, items) + [ItemInt(items[m.seqNo])]
            else
              && Asked(after, items) == Asked(before, items) && Answers(after, items) == Answers(before, items)
              && (m.Ack? || (m.Request? && m.seqNo >= |items|) ==>
                    Follows(Verdict(m, |Asked(before, items)| < |items|), after, items, ticks))
  {
    var m := after[|after| - 1];
    OneMoreHeard(before, m, items);
    assert EndsWith(after, items, Some(m));
  }

  /** The second loop: everything but an acknowledgement is discarded. */
  method AwaitAck(link: Link, items: seq<MissionItem>, missionType: nat, ghost sent: set<nat>,
            ghost earlier: seq<ToGround>,
      ghost start: World, ghost ready: bool)
    returns (outcome: UploadOutcome)
    requires OnlyGoodRequests(earlier, items) && |Asked(earlier, items)| >= |items|
    requires ready ==> Under(link, items, missionType, sent, start)
    requires link.Valid()
    modifies link
    ensures link.Valid() && old(link.trace) <= link.trace
    ensures (outcome, link.View()) == Conclude(old(link.View()))
    ensures old(link.heard) <= link.heard && old(link.clock) <= link.clock && link.said == old(link.said)
    ensures var heard := earlier + Since(link.heard, old(link.heard));
            && Answers(heard, items) == Answers(earlier, items)
            && Follows(outcome, heard, items, link.clock - old(link.clock))
    ensures ready ==> Ended(link, items, missionType, start, outcome)
  {
    hide Await, Read;
    hide Under, Ended, Follows, Answers, Asked, Link.Recorded;
    var ackStart := link.clock;
    while link.clock - ackStart < ACK_TIMEOUT
      invariant link.Valid() && old(link.trace) <= link.trace
      invariant Await(link.View(), ackStart + ACK_TIMEOUT, Acks, Acks) ==
                  Await(old(link.View()), ackStart + ACK_TIMEOUT, Acks, Acks)
      invariant ackStart <= link.clock && link.heard == old(link.heard) && link.said == old(link.said)
      invariant ready ==> Under(link, items, missionType, sent, start)
      decreases ackStart + ACK_TIMEOUT - link.clock
    {
      AwaitUnfolds(link.View(), ackStart + ACK_TIMEOUT, Acks, Acks);
      var msg := NextAck(link, items, missionType, sent, start, ready);
      if msg.Some? {
        assert Since(link.heard, old(link.heard)) == [msg.value];
        HeardNext(earlier, earlier + [msg.value], items, link.clock - ackStart);
        return if msg.value.kind == ACCEPTED then Uploaded(false) else Rejected(msg.value.kind);
      }
      link.Sleep();
    }
    assert Since(link.heard, old(link.heard)) == [] && earlier + [] == earlier;
    AckTimeRanOut(earlier, items, link.clock - ackStart);
    if ready {
      UnderEnds(link, items, missionType, sent, start, TimedOut);
    }
    AwaitUnfolds(link.View(), ackStart + ACK_TIMEOUT, Acks, Acks);
    return TimedOut;
  }

  method NextAck(link: Link, items: seq<MissionItem>, missionType: nat, ghost sent: set<nat>, ghost start: World,
      ghost ready: bool)
    returns (msg: Option<ToGround>)
    requires ready ==> Under(link, items, missionType, sent, start)
    requires link.Valid()
    modifies link
    ensures link.Valid() && old(link.trace) <= link.trace
    ensures (msg, link.View()) == Read(old(link.View()), Acks)
    ensures old(link.clock) <= link.clock && link.said == old(link.said)
    ensures link.heard == old(link.heard) + (if msg.Some? then [msg.value] else [])
    ensures msg.Some? ==> msg.value.Ack?
    ensures ready ==>
              if msg.Some? then Ended(link, items, missionType, start, Verdict(msg.value, false))
              else Under(link, items, missionType, sent, start)
  {
    hide Read, Receives, After;
    ghost var w, es := link.world, link.events;
    ghost var n;
    msg, n := link.RecvMatch(Acks);
    if ready {
      UnderKept(w, es[..n], items, missionType, sent, start);
      if msg.Some? && IsAccept(msg.value) {
        AcceptanceRead(w, es[..n], msg.value, items, missionType, sent);
      }
    }
  }

  lemma AckTimeRanOut(heard: seq<ToGround>, items: seq<MissionItem>, ticks: int)
    requires OnlyGoodRequests(heard, items)
    requires |Asked(heard, items)| >= |items| && ticks >= ACK_TIMEOUT
    ensures Follows(TimedOut, heard, items, ticks)
  {}

  // ----- download_mission

  /** The reply was given by the vehicle as it was after some of the events. */
  lemma ReadWhenBounded(w: World, es: seq<Event>, msg: ToGround)
    requires Bounded(w) && Honest(es) && Receives(w, es, msg) && msg.CountIs?
    ensures Bounded(After(w, es)) && Settled(After(w, es)) && |Held(After(w, es), msg.missionType)| <= msg.count
  {
    hide Bounded, Step;
    BoundedKept(w, es[..|es| - 1]);
    BoundedKept(w, es);
    CountBounds(After(w, es[..|es| - 1]), es[|es| - 1].i);
  }

  lemma CountBounds(w: World, i: nat)
    requires Bounded(w) && i < |w.toGround| && w.toGround[i].CountIs?
    ensures Settled(w) && |Held(w, w.toGround[i].missionType)| <= w.toGround[i].count
    ensures Settled(Step(w, Deliver(i))) && Step(w, Deliver(i)).stored == w.stored
  {}

  lemma ReadWhenFaithful(w: World, es: seq<Event>, msg: ToGround, m: nat)
    requires Faithful(w, m) && Honest(es) && Receives(w, es, msg)
    ensures Faithful(After(w, es), m) && After(w, es).stored == w.stored
    ensures TrueOf(msg, m, Held(w, m))
  {
    hide Step;
    FaithfulKept(w, es[..|es| - 1], m);
    FaithfulKept(w, es, m);
  }

  /** A complete answer: as many items as were announced, each under its number and of the type asked for. */
  predicate WellNumbered(items: seq<MissionItem>, m: nat) {
    forall i :: 0 <= i < |items| ==> items[i].seqNo == i && items[i].missionType == m
  }

  /** What a download cannot disturb, and what it can rely on if it held before. */
  ghost predicate Undisturbed(w: World, start: World) {
    && (Bounded(start) ==> Bounded(w))
    && (Settled(start) ==> Settled(w) && forall t: nat :: Held(w, t) <= Held(start, t))
    && (Quiet(start) ==> Quiet(w) && w.stored == start.stored)
    && (forall t: nat :: Faithful(start, t) ==> Faithful(w, t))
  }

  lemma UndisturbedSends(w: World, start: World, said: ToVehicle)
    requires Undisturbed(w, start) && !said.Count? && !said.ClearAll?
    ensures Undisturbed(Sent(w, said), start)
  {
    if Bounded(start) {
      BoundedSends(w, said);
    }
  }

  lemma UndisturbedKept(w: World, es: seq<Event>, start: World)
    requires Undisturbed(w, start) && Honest(es)
    ensures Undisturbed(After(w, es), start)
  {
    hide Bounded, Settled, Quiet, Faithful, After;
    if Bounded(start) {
      BoundedKept(w, es);
    }
    if Settled(start) {
      SettledKept(w, es);
    }
    if Quiet(start) {
      QuietKept(w, es);
    }
    forall t: nat | Faithful(start, t)
      ensures Faithful(After(w, es), t)
    {
      FaithfulKept(w, es, t);
    }
  }

  /** What the announced count tells, while the world is still the one it was announced in. */
  ghost predicate Tells(w: World, start: World, m: nat, count: nat) {
    && (Bounded(start) ==> Settled(w) && |Held(w, m)| <= count)
    && (Faithful(start, m) ==> count == |Held(start, m)|)
  }

  lemma TellsKept(w: World, es: seq<Event>, start: World, m: nat, count: nat)
    requires Tells(w, start, m, count) && Honest(es)
    ensures Tells(After(w, es), start, m, count)
  {
    hide After, Bounded, Faithful;
    if Bounded(start) {
      SettledKept(w, es);
    }
  }

  lemma TellsSends(w: World, start: World, m: nat, count: nat, said: ToVehicle)
    requires Tells(w, start, m, count) && !said.Count?
    ensures Tells(Sent(w, said), start, m, count)
  {}

  /** What is new now was new before, or came last. */
  lemma NothingNew(start: seq<ToGround>, before: seq<ToGround>, now: seq<ToGround>)
    requires start <= before <= now && |now| <= |before| + 1
    ensures forall x :: x in Since(now, start) ==> x in Since(before, start) || (before < now && x == now[|now| - 1])
  {
    forall x | x in Since(now, start)
      ensures x in Since(before, start) || (before < now && x == now[|now| - 1])
    {
      var i :| 0 <= i < |Since(now, start)| && Since(now, start)[i] == x;
      assert x == now[|start| + i];
      if |start| + i < |before| {
        assert x == before[|start| + i] == Since(before, start)[i];
      }
    }
  }

  lemma JustHeard(before: seq<ToGround>, now: seq<ToGround>, m: ToGround)
    requires before < now && now[|now| - 1] == m
    ensures m in Since(now, before)
  {
    assert now[|before|..][|now| - 1 - |before|] == m;
  }

  /** Waiting for the count of the right type; others are read and ignored. */
  method AwaitCount(link: Link, m: nat, ghost start: World, ghost honest: bool) returns (count: Option<nat>)
    requires honest ==> Honest(link.events) && Undisturbed(link.world, start)
    requires link.Valid()
    modifies link`world, link`events, link`clock, link`heard, link`trace
    ensures link.Valid() && old(link.trace) <= link.trace
    ensures var r := Await(old(link.View()), old(link.clock) + COUNT_TIMEOUT, Counts, CountOf(m));
            link.View() == r.1 && count == if r.0.None? then None else Some(r.0.value.count)
    ensures old(link.heard) <= link.heard && link.said == old(link.said) && old(link.clock) <= link.clock
    ensures count.Some? ==> CountIs(count.value, m) in Since(link.heard, old(link.heard))
    ensures count.None? ==>
              && link.clock - old(link.clock) >= COUNT_TIMEOUT
              && forall x :: x in Since(link.heard, old(link.heard)) ==> !Wanted(CountOf(m), x)
    ensures honest ==> Honest(link.events) && Undisturbed(link.world, start)
    ensures honest && count.Some? ==> Tells(link.world, start, m, count.value)
  {
    hide Await, Read, Receives, After;
    hide Undisturbed, Link.Recorded;
    var startTime := link.clock;
    while link.clock - startTime < COUNT_TIMEOUT
      invariant link.Valid() && old(link.trace) <= link.trace
      invariant Await(link.View(), startTime + COUNT_TIMEOUT, Counts, CountOf(m)) ==
                  Await(old(link.View()), startTime + COUNT_TIMEOUT, Counts, CountOf(m))
      invariant startTime <= link.clock && old(link.heard) <= link.heard && link.said == old(link.said)
      invariant forall x :: x in Since(link.heard, old(link.heard)) ==> !Wanted(CountOf(m), x)
      invariant honest ==> Honest(link.events) && Undisturbed(link.world, start)
      decreases startTime + COUNT_TIMEOUT - link.clock
    {
      AwaitUnfolds(link.View(), startTime + COUNT_TIMEOUT, Counts, CountOf(m));
      ghost var w, es, before := link.world, link.events, link.heard;
      var msg, n := link.RecvMatch(Counts);
      if honest {
        UndisturbedKept(w, es[..n], start);
      }
      if msg.Some? && msg.value.missionType == m {
        if honest {
          CountTells(w, es[..n], start, m, msg.value);
        }
        JustHeard(old(link.heard), link.heard, msg.value);
        return Some(msg.value.count);
      }
      NothingNew(old(link.heard), before, link.heard);
      link.Sleep();
    }
    AwaitUnfolds(link.View(), startTime + COUNT_TIMEOUT, Counts, CountOf(m));
    return None;
  }

  lemma CountTells(w: World, es: seq<Event>, start: World, m: nat, msg: ToGround)
    requires Undisturbed(w, start) && Honest(es) && Receives(w, es, msg) && msg.CountIs? && msg.missionType == m
    ensures Tells(After(w, es), start, m, msg.count)
  {
    hide Bounded, Settled, Faithful, After, Receives;
    if Bounded(start) {
      ReadWhenBounded(w, es, msg);
    }
    if Faithful(start, m) {
      ReadWhenFaithful(w, es, msg, m);
      FaithfulIsQuiet(start, m);
    }
  }

  lemma FaithfulIsQuiet(w: World, m: nat)
    requires Faithful(w, m)
    ensures Quiet(w)
  {}

  /** Waiting for the item of the right number and type. */
  method AwaitItem(link: Link, m: nat, k: nat, ghost start: World, ghost count: nat, ghost honest: bool)
    returns (item: Option<MissionItem>)
    requires honest ==> Honest(link.events) && Undisturbed(link.world, start) && Tells(link.world, start, m, count)
    requires link.Valid()
    modifies link`world, link`events, link`clock, link`heard, link`trace
    ensures link.Valid() && old(link.trace) <= link.trace
    ensures var r := Await(old(link.View()), old(link.clock) + ITEM_TIMEOUT, Items, ItemOf(m, k));
            link.View() == r.1 && item == if r.0.None? then None else Some(r.0.value.item)
    ensures old(link.heard) <= link.heard && link.said == old(link.said) && old(link.clock) <= link.clock
    ensures item.Some? ==> item.value.seqNo == k && item.value.missionType == m
    ensures item.Some? ==> ItemIs(item.value) in Since(link.heard, old(link.heard))
    ensures item.None? ==>
              && link.clock - old(link.clock) >= ITEM_TIMEOUT
              && forall x :: x in Since(link.heard, old(link.heard)) ==> !Wanted(ItemOf(m, k), x)
    ensures honest ==> Honest(link.events) && Undisturbed(link.world, start) && Tells(link.world, start, m, count)
    ensures honest && item.Some? && Faithful(start, m) ==> k < |Held(start, m)| && item.value == Reply(Held(start,
          m), m, k)
  {
    hide Await, Read, Receives, After;
    hide Undisturbed, Tells, Faithful, Link.Recorded, Held, Reply;
    var startTime := link.clock;
    while link.clock - startTime < ITEM_TIMEOUT
      invariant link.Valid() && old(link.trace) <= link.trace
      invariant Await(link.View(), startTime + ITEM_TIMEOUT, Items, ItemOf(m, k)) ==
                  Await(old(link.View()), startTime + ITEM_TIMEOUT, Items, ItemOf(m, k))
      invariant startTime <= link.clock && old(link.heard) <= link.heard && link.said == old(link.said)
      invariant forall x :: x in Since(link.heard, old(link.heard)) ==> !Wanted(ItemOf(m, k), x)
      invariant honest ==> Honest(link.events) && Undisturbed(link.world, start) && Tells(link.world, start, m,
            count)
      decreases startTime + ITEM_TIMEOUT - link.clock
    {
      AwaitUnfolds(link.View(), startTime + ITEM_TIMEOUT, Items, ItemOf(m, k));
      ghost var w, es, before := link.world, link.events, link.heard;
      var msg, n := link.RecvMatch(Items);
      if honest {
        UndisturbedKept(w, es[..n], start);
        TellsKept(w, es[..n], start, m, count);
      }
      if msg.Some? && msg.value.item.seqNo == k && msg.value.item.missionType == m {
        if honest && Faithful(start, m) {
          ItemIsTrue(w, es[..n], start, m, msg.value);
        }
        JustHeard(old(link.heard), link.heard, msg.value);
        return Some(msg.value.item);
      }
      NothingNew(old(link.heard), before, link.heard);
      link.Sleep();
    }
    AwaitUnfolds(link.View(), startTime + ITEM_TIMEOUT, Items, ItemOf(m, k));
    return None;
  }

  lemma ItemIsTrue(w: World, es: seq<Event>, start: World, m: nat, msg: ToGround)
    requires Undisturbed(w, start) && Faithful(start, m) && Honest(es) && Receives(w, es, msg)
    ensures TrueOf(msg, m, Held(start, m))
  {
    hide Receives, After;
    ReadWhenFaithful(w, es, msg, m);
  }

  /** The list was asked for, and the first n items one after the other. */
  function Asking(said: seq<ToVehicle>, m: nat, n: nat): seq<ToVehicle> {
    if n == 0 then said + [RequestList(m)] else Asking(said, m, n - 1) + [RequestItem(n - 1, m)]
  }

  lemma AskingBegins(said: seq<ToVehicle>, m: nat)
    ensures Asking(said, m, 0) == said + [RequestList(m)]
    ensures Clears(Asking(said, m, 0)) == Clears(said)
  {
    ClearsMore(said, RequestList(m));
  }

  lemma {:induction false} AskingGoesOn(said: seq<ToVehicle>, m: nat, n: nat)
    ensures said <= Asking(said, m, n) && Clears(Asking(said, m, n)) == Clears(said)
  {
    if n == 0 {
      AskingBegins(said, m);
    } else {
      AskingGoesOn(said, m, n - 1);
      ClearsMore(Asking(said, m, n - 1), RequestItem(n - 1, m));
    }
  }

  /** Of n announced items the one numbered k was asked for last, and did not come in time after that. */
  predicate ItemMissed(heard: seq<ToGround>, now: seq<ToVehicle>, before: seq<ToVehicle>, m: nat, n: nat, k: nat,
                       late: seq<ToGround>, ticks: int)
  {
    && k < n && CountIs(n, m) in heard && now == Asking(before, m, k + 1)
    && ticks >= ITEM_TIMEOUT && forall x :: x in late ==> !Wanted(ItemOf(m, k), x)
  }

  /**
   A download fails when no count comes, or when one of the announced items does not; `late` and
   `ticks` are what was read and the time that passed since it was asked for.
   */
  ghost predicate GaveUp(heard: seq<ToGround>, now: seq<ToVehicle>, before: seq<ToVehicle>, m: nat,
                         late: seq<ToGround>, ticks: int)
  {
    || (now == Asking(before, m, 0) && ticks >= COUNT_TIMEOUT && forall x :: x in late ==> !Wanted(CountOf(m), x))
    || (exists n: nat, k: nat :: ItemMissed(heard, now, before, m, n, k, late, ticks))
  }

  /**
   download_mission; None where the source raises.  Whatever messages arrive, a list that is
   returned has the announced length, and each place holds an item that was received, with its
   number and the type asked for.
   */
  method DownloadMission(link: Link, m: nat) returns (result: Option<seq<MissionItem>>)
    requires link.Valid()
    modifies link
    ensures link.Valid() && old(link.trace) <= link.trace
    ensures (result, link.View()) == DownloadRun(old(link.View()), m)
    ensures old(link.heard) <= link.heard && old(link.clock) <= link.clock && old(link.said) <= link.said
    ensures Clears(link.said) == Clears(old(link.said))
    ensures result.None? ==>
              && GaveUp(Since(link.heard, old(link.heard)), link.said, old(link.said), m, link.Late(),
                        link.clock - link.sentAt)
              && old(link.clock) <= link.sentAt
    ensures result.Some? ==>
              var heard, n := Since(link.heard, old(link.heard)), |result.value|;
              && link.said == Asking(old(link.said), m, n) + (if n > 0 then [DownloadAck(m)] else [])
              && CountIs(n, m) in heard
              && WellNumbered(result.value, m)
              && forall k :: 0 <= k < n ==> ItemIs(result.value[k]) in heard
    ensures old(Honest(link.events)) ==> Honest(link.events) && Undisturbed(link.world, old(link.world))
    ensures old(Honest(link.events)) && result.Some? ==>
              && Tells(link.world, old(link.world), m, |result.value|)
              && (old(Faithful(link.world, m)) ==> result.value == Reported(Held(old(link.world), m), m))
  {
    hide DownloadRun, FetchRun, Await, Told;
    hide AllInPlace, Wanted, Undisturbed, Tells, Faithful, GaveUp, Right, Clears, Asking, Honest, WellNumbered, Held;
    hide Link.Recorded;
    ghost var start, honest := link.world, Honest(link.events);
    DownloadRunUnfolds(link.View(), m);
    NothingDisturbed(start);
    UndisturbedSends(start, start, RequestList(m));
    AskingBegins(old(link.said), m);
    link.Send(RequestList(m));
    var counted := AwaitCount(link, m, start, honest);
    if counted.None? {
      CountMissing(Since(link.heard, old(link.heard)), link.said, old(link.said), m, link.Late(),
            link.clock - link.sentAt);
      return None;
    }
    var count := counted.value;
    var items := new Option<MissionItem>[count](_ => None);
    ghost var counting := (counted, link.View());
    var complete := FetchAll(link, m, items, start, honest, old(link.heard), old(link.said));
    if !complete {
      return None;
    }
    AskingGoesOn(old(link.said), m, count);
    if count > 0 {
      if honest {
        UndisturbedSends(link.world, start, DownloadAck(m));
        TellsSends(link.world, start, m, count, DownloadAck(m));
      }
      ClearsMore(link.said, DownloadAck(m));
      link.Send(DownloadAck(m));
    }
    result := Some(seq(count, k requires 0 <= k < items.Length && items[k].Some? reads items => items[k].value));
    assert result.value == FetchRun(counting.1, m, count, 0).0.value by {
      FilledWith(items[..], FetchRun(counting.1, m, count, 0).0.value, result.value);
    }
    AllRight(result.value, m, Since(link.heard, old(link.heard)), start, honest);
    if honest && Faithful(start, m) {
      AllReported(result.value, Since(link.heard, old(link.heard)), start, m, link.world);
    }
  }

  /** The loop over the announced items: each is asked for and put into its place. */
  method FetchAll(link: Link, m: nat, items: array<Option<MissionItem>>, ghost start: World, ghost honest: bool,
            ghost heard: seq<ToGround>, ghost said: seq<ToVehicle>)
    returns (complete: bool)
    requires link.Valid() && heard <= link.heard && link.said == Asking(said, m, 0)
    requires CountIs(items.Length, m) in Since(link.heard, heard)
    requires honest ==>
               Honest(link.events) && Undisturbed(link.world, start) && Tells(link.world, start, m, items.Length)
    modifies link, items
    ensures link.Valid() && old(link.trace) <= link.trace
    ensures heard <= link.heard && old(link.clock) <= link.clock && said <= link.said
    ensures old(link.heard) <= link.heard
    ensures var r := FetchRun(old(link.View()), m, items.Length, 0);
            && link.View() == r.1 && complete == r.0.Some?
            && (complete ==>
                  && Filled(items[..], r.0.value)
                  && AllInPlace(r.0.value, m, Since(link.heard, heard), start, honest))
    ensures Clears(link.said) == Clears(said)
    ensures complete ==> link.said == Asking(said, m, items.Length)
    ensures !complete ==>
              && GaveUp(Since(link.heard, heard), link.said, said, m, link.Late(), link.clock - link.sentAt)
              && old(link.clock) <= link.sentAt
    ensures honest ==>
              Honest(link.events) && Undisturbed(link.world, start) && Tells(link.world, start, m, items.Length)
  {
    hide FetchRun, Await, Told;
    hide Undisturbed, Tells, Faithful, GaveUp, Right, Clears, Link.Recorded, Filled, AllInPlace, Honest, Behind;
    ghost var got: seq<MissionItem> := [];
    NothingFetched(FetchRun(link.View(), m, items.Length, 0));
    NothingInPlace(items, m, Since(link.heard, heard), start, honest);
    for k := 0 to items.Length
      invariant link.Valid() && old(link.trace) <= link.trace
      invariant |got| == k && Filled(items[..k], got)
      invariant FetchRun(old(link.View()), m, items.Length, 0) == Behind(got, FetchRun(link.View(), m, items.Length, k))
      invariant old(link.heard) <= link.heard && old(link.clock) <= link.clock
      invariant link.said == Asking(said, m, k)
      invariant CountIs(items.Length, m) in Since(link.heard, heard)
      invariant honest ==>
                  Honest(link.events) && Undisturbed(link.world, start) && Tells(link.world, start, m, items.Length)
      invariant AllInPlace(got, m, Since(link.heard, heard), start, honest)
    {
      FetchUnfolds(link.View(), m, items.Length, k);
      ghost var between := link.heard;
      var item := FetchItem(link, m, k, start, items.Length, honest);
      SinceTwice(heard, between, link.heard);
      if item.None? {
        BehindMissing(got, link.View());
        AskingGoesOn(said, m, k + 1);
        ItemMissing(Since(link.heard, heard), link.said, said, m, items.Length, k, link.Late(),
              link.clock - link.sentAt);
        return false;
      }
      RightThere(item.value, m, k, Since(link.heard, between), Since(link.heard, heard), start, honest);
      OneMoreInPlace(got, item.value, m, Since(between, heard), Since(link.heard, heard), start, honest);
      BehindMore(got, item.value, FetchRun(link.View(), m, items.Length, k + 1));
      FilledMore(items[..k], got, item.value);
      assert items[..k] + [item] == items[..][..k] + [item];
      items[k] := item;
      assert items[..k + 1] == items[..k] + [item];
      got := got + [item.value];
    }
    AskingGoesOn(said, m, items.Length);
    FetchEnds(link.View(), m, items.Length);
    BehindNothing(got, link.View());
    assert items[..items.Length] == items[..];
    return true;
  }

  /** The places are filled with these items. */
  predicate Filled(places: seq<Option<MissionItem>>, items: seq<MissionItem>) {
    |places| == |items| && forall k :: 0 <= k < |items| ==> places[k] == Some(items[k])
  }

  lemma FilledWith(places: seq<Option<MissionItem>>, items: seq<MissionItem>, values: seq<MissionItem>)
    requires Filled(places, items) && |values| == |places|
    requires forall k :: 0 <= k < |places| ==> places[k] == Some(values[k])
    ensures values == items
  {}

  lemma FilledMore(places: seq<Option<MissionItem>>, items: seq<MissionItem>, item: MissionItem)
    requires Filled(places, items)
    ensures Filled(places + [Some(item)], items + [item])
  {}

  /** Each item has its number and its type and was read; from a faithful vehicle it is the stored one. */
  ghost predicate AllInPlace(items: seq<MissionItem>, m: nat, heard: seq<ToGround>, start: World, honest: bool) {
    forall k :: 0 <= k < |items| ==> Right(items[k], m, k, heard, start, honest)
  }

  lemma NothingInPlace(places: array<Option<MissionItem>>, m: nat, heard: seq<ToGround>, start: World, honest: bool)
    ensures Filled(places[..0], []) && AllInPlace([], m, heard, start, honest)
  {}

  lemma OneMoreInPlace(items: seq<MissionItem>, item: MissionItem, m: nat, before: seq<ToGround>, now: seq<ToGround>,
          start: World, honest: bool)
    requires AllInPlace(items, m, before, start, honest) && before <= now
    requires Right(item, m, |items|, now, start, honest)
    ensures AllInPlace(items + [item], m, now, start, honest)
  {
    hide Right;
    forall k | 0 <= k < |items|
      ensures Right(items[k], m, k, now, start, honest)
    {
      RightThere(items[k], m, k, before, now, start, honest);
    }
  }

  lemma BehindMissing(got: seq<MissionItem>, at: Spot)
    ensures Behind(got, (None, at)) == (None, at)
  {}

  lemma BehindNothing(got: seq<MissionItem>, at: Spot)
    ensures Behind(got, (Some([]), at)) == (Some(got), at)
  {
    assert got + [] == got;
  }

  lemma NothingFetched(r: (Option<seq<MissionItem>>, Spot))
    ensures Behind([], r) == r
  {
    if r.0.Some? {
      assert [] + r.0.value == r.0.value;
    }
  }

  lemma BehindMore(got: seq<MissionItem>, item: MissionItem, r: (Option<seq<MissionItem>>, Spot))
    ensures Behind(got, Behind([item], r)) == Behind(got + [item], r)
  {
    if r.0.Some? {
      assert got + ([item] + r.0.value) == got + [item] + r.0.value;
    }
  }

  lemma CountMissing(heard: seq<ToGround>, now: seq<ToVehicle>, before: seq<ToVehicle>, m: nat, late: seq<ToGround>,
          ticks: int)
    requires now == Asking(before, m, 0) && ticks >= COUNT_TIMEOUT && forall x :: x in late ==> !Wanted(CountOf(m), x)
    ensures GaveUp(heard, now, before, m, late, ticks)
  {}

  lemma ItemMissing(heard: seq<ToGround>, now: seq<ToVehicle>, before: seq<ToVehicle>, m: nat, n: nat, k: nat,
          late: seq<ToGround>, ticks: int)
    requires ItemMissed(heard, now, before, m, n, k, late, ticks)
    ensures GaveUp(heard, now, before, m, late, ticks)
  {}

  lemma RightThere(item: MissionItem, m: nat, k: nat, part: seq<ToGround>, heard: seq<ToGround>, start: World,
          honest: bool)
    requires Right(item, m, k, part, start, honest) && forall x :: x in part ==> x in heard
    ensures Right(item, m, k, heard, start, honest)
  {}

  lemma AllRight(items: seq<MissionItem>, m: nat, heard: seq<ToGround>, start: World, honest: bool)
    requires AllInPlace(items, m, heard, start, honest)
    ensures WellNumbered(items, m) && forall k :: 0 <= k < |items| ==> ItemIs(items[k]) in heard
  {
    forall k | 0 <= k < |items|
      ensures items[k].seqNo == k && items[k].missionType == m && ItemIs(items[k]) in heard
    {
      assert Right(items[k], m, k, heard, start, honest);
    }
  }

  /** Asking for one item and waiting for it. */
  method FetchItem(link: Link, m: nat, k: nat, ghost start: World, ghost count: nat, ghost honest: bool)
    returns (item: Option<MissionItem>)
    requires link.Valid()
    requires honest ==> Honest(link.events) && Undisturbed(link.world, start) && Tells(link.world, start, m, count)
    modifies link
    ensures link.Valid() && old(link.trace) <= link.trace
    ensures var asked := Told(old(link.View()), RequestItem(k, m));
            var r := Await(asked, old(link.clock) + ITEM_TIMEOUT, Items, ItemOf(m, k));
            link.View() == r.1 && item == if r.0.None? then None else Some(r.0.value.item)
    ensures old(link.heard) <= link.heard && link.said == old(link.said) + [RequestItem(k, m)]
    ensures old(link.clock) <= link.sentAt <= link.clock
    ensures item.None? ==>
              link.clock - link.sentAt >= ITEM_TIMEOUT && forall x :: x in link.Late() ==> !Wanted(ItemOf(m, k), x)
    ensures item.Some? ==> Right(item.value, m, k, Since(link.heard, old(link.heard)), start, honest)
    ensures honest ==> Honest(link.events) && Undisturbed(link.world, start) && Tells(link.world, start, m, count)
  {
    hide Await;
    hide Undisturbed, Tells, Faithful, Link.Recorded;
    if honest {
      UndisturbedSends(link.world, start, RequestItem(k, m));
      TellsSends(link.world, start, m, count, RequestItem(k, m));
    }
    link.Send(RequestItem(k, m));
    item := AwaitItem(link, m, k, start, count, honest);
  }

  lemma NothingDisturbed(w: World)
    ensures Undisturbed(w, w)
  {}

  /** An item in its place. */
  ghost predicate Right(item: MissionItem, m: nat, k: nat, heard: seq<ToGround>, start: World, honest: bool) {
    && item.seqNo == k && item.missionType == m && ItemIs(item) in heard
    && (honest && Faithful(start, m) ==> k < |Held(start, m)| && item == Reply(Held(start, m), m, k))
  }

  lemma AllReported(items: seq<MissionItem>, heard: seq<ToGround>, start: World, m: nat, w: World)
    requires Faithful(start, m) && Tells(w, start, m, |items|)
    requires AllInPlace(items, m, heard, start, true)
    ensures items == Reported(Held(start, m), m)
  {
    hide Faithful;
    assert |items| == |Held(start, m)|;
    forall k | 0 <= k < |items|
      ensures items[k] == Reported(Held(start, m), m)[k]
    {
      assert Right(items[k], m, k, heard, start, true);
    }
  }

  // ----- clear_mission

  /** What clearing relies on and keeps: an answer to a request for a list is a bound on it. */
  ghost predicate Clearing(link: Link)
    reads link`world, link`events
  {
    Bounded(link.world) && Honest(link.events)
  }

  /** The lists have not grown, if no upload could make them grow. */
  ghost predicate NotLonger(w: World, start: World) {
    Settled(start) ==> Settled(w) && forall t: nat :: Held(w, t) <= Held(start, t)
  }

  lemma NotLongerKept(w: World, es: seq<Event>, start: World)
    requires NotLonger(w, start)
    ensures NotLonger(After(w, es), start)
  {
    hide After, Settled;
    if Settled(start) {
      SettledKept(w, es);
    }
  }

  /** How the outcome of a clear follows from the messages read and the time that passed. */
  ghost predicate ClearFollows(outcome: ClearOutcome, heard: seq<ToGround>, m: nat, ticks: int) {
    match outcome
    case Cleared => Ack(ACCEPTED, m) in heard && exists n: nat :: n <= Remaining(m) && CountIs(n, m) in heard
    case ClearRejected(kind) => kind != ACCEPTED && Ack(kind, m) in heard
    case ClearTimedOut => ticks >= CLEAR_TIMEOUT && forall x :: x in heard ==> !Wanted(AckOf(m), x)
    case VerificationFailed => Ack(ACCEPTED, m) in heard && ticks >= ITEM_TIMEOUT
    case StillPresent(n) => n > Remaining(m) && CountIs(n, m) in heard
  }

  /** Waiting for the acknowledgement of the clear: its kind, or None when none of that type comes. */
  method AwaitClearAck(link: Link, m: nat, ghost start: World) returns (kind: Option<nat>)
    requires NotLonger(link.world, start)
    requires link.Valid()
    modifies link
    ensures link.Valid() && old(link.trace) <= link.trace
    ensures var r := Await(old(link.View()), old(link.clock) + CLEAR_TIMEOUT, Acks, AckOf(m));
            link.View() == r.1 && kind == if r.0.None? then None else Some(r.0.value.kind)
    ensures NotLonger(link.world, start)
    ensures old(Clearing(link)) ==> Clearing(link)
    ensures old(link.heard) <= link.heard && link.said == old(link.said) && old(link.clock) <= link.clock
    ensures kind.Some? ==> Ack(kind.value, m) in Since(link.heard, old(link.heard))
    ensures kind.None? ==>
              && link.clock - old(link.clock) >= CLEAR_TIMEOUT
              && forall x :: x in Since(link.heard, old(link.heard)) ==> !Wanted(AckOf(m), x)
  {
    hide Await, Read, Receives, After;
    hide NotLonger, Bounded, Link.Recorded;
    var startTime := link.clock;
    while link.clock - startTime < CLEAR_TIMEOUT
      invariant link.Valid() && old(link.trace) <= link.trace
      invariant Await(link.View(), startTime + CLEAR_TIMEOUT, Acks, AckOf(m)) ==
                  Await(old(link.View()), startTime + CLEAR_TIMEOUT, Acks, AckOf(m))
      invariant startTime <= link.clock && NotLonger(link.world, start)
      invariant old(Clearing(link)) ==> Clearing(link)
      invariant old(link.heard) <= link.heard && link.said == old(link.said)
      invariant forall x :: x in Since(link.heard, old(link.heard)) ==> !Wanted(AckOf(m), x)
      decreases startTime + CLEAR_TIMEOUT - link.clock
    {
      AwaitUnfolds(link.View(), startTime + CLEAR_TIMEOUT, Acks, AckOf(m));
      ghost var w, es, before := link.world, link.events, link.heard;
      var msg, n := link.RecvMatch(Acks);
      NotLongerKept(w, es[..n], start);
      if old(Clearing(link)) {
        BoundedKept(w, es[..n]);
      }
      if msg.Some? && msg.value.missionType == m {
        JustHeard(old(link.heard), link.heard, msg.value);
        return Some(msg.value.kind);
      }
      NothingNew(old(link.heard), before, link.heard);
      link.Sleep();
    }
    AwaitUnfolds(link.View(), startTime + CLEAR_TIMEOUT, Acks, AckOf(m));
    return None;
  }

  /**
   clear_mission.  The acknowledgement is not trusted: the list is downloaded, and a normal return
   means that the vehicle holds no more than it may.
   */
  method ClearMission(link: Link, m: nat) returns (outcome: ClearOutcome)
    requires link.Valid()
    modifies link
    ensures link.Valid() && old(link.trace) <= link.trace
    ensures (outcome, link.View()) == ClearRun(old(link.View()), m)
    ensures old(link.heard) <= link.heard && old(link.clock) <= link.clock
    ensures old(link.said) + [ClearAll(m)] <= link.said && Clears(link.said) == Clears(old(link.said)) + [m]
    ensures ClearFollows(outcome, Since(link.heard, old(link.heard)), m, link.clock - old(link.clock))
    ensures outcome == VerificationFailed ==>
              GaveUp(Since(link.heard, old(link.heard)), link.said, old(link.said) + [ClearAll(m)], m, link.Late(),
                     link.clock - link.sentAt)
    ensures old(Clearing(link)) ==>
              && Clearing(link) && NotLonger(link.world, old(link.world))
              && (outcome.Cleared? ==> Settled(link.world) && |Held(link.world, m)| <= Remaining(m))
  {
    hide DownloadRun, Await, Told;
    hide Bounded, Settled, ClearFollows, GaveUp, Clears, Tells, Undisturbed, NotLonger, Link.Recorded;
    ghost var start := link.world;
    ClearSends(start, m);
    ClearsMore(link.said, ClearAll(m));
    link.Send(ClearAll(m));
    var kind := AwaitClearAck(link, m, start);
    if kind != Some(ACCEPTED) {
      ClearRefused(kind, Since(link.heard, old(link.heard)), m, link.clock - old(link.clock));
      return if kind.None? then ClearTimedOut else ClearRejected(kind.value);
    }
    ghost var before, between, said := link.world, link.heard, link.said;
    var items := DownloadMission(link, m);
    SinceTwice(old(link.heard), between, link.heard);
    if old(Clearing(link)) {
      DownloadIsNotLonger(link.world, before, start, m);
      if items.Some? {
        DownloadTells(link.world, before, m, |items.value|);
      }
    }
    if items.None? {
      GaveUpLater(Since(link.heard, between), Since(link.heard, old(link.heard)), link.said, said, m, link.Late(),
            link.clock - link.sentAt);
      outcome := VerificationFailed;
    } else if (m == 0 && |items.value| <= 1) || (m != 0 && |items.value| == 0) {
      outcome := Cleared;
    } else {
      outcome := StillPresent(|items.value|);
    }
    ClearEnds(outcome, items, Since(link.heard, old(link.heard)), m, link.clock - old(link.clock));
  }

  lemma DownloadTells(w: World, before: World, m: nat, count: nat)
    requires Tells(w, before, m, count) && Bounded(before)
    ensures Settled(w) && |Held(w, m)| <= count
  {}

  lemma GaveUpLater(part: seq<ToGround>, heard: seq<ToGround>, now: seq<ToVehicle>, before: seq<ToVehicle>, m: nat,
          late: seq<ToGround>, ticks: int)
    requires GaveUp(part, now, before, m, late, ticks) && forall x :: x in part ==> x in heard
    ensures GaveUp(heard, now, before, m, late, ticks) && ticks >= ITEM_TIMEOUT
  {
    if n: nat, k: nat :| ItemMissed(part, now, before, m, n, k, late, ticks) {
      assert ItemMissed(heard, now, before, m, n, k, late, ticks);
    }
  }

  lemma ClearEnds(outcome: ClearOutcome, items: Option<seq<MissionItem>>, heard: seq<ToGround>, m: nat, ticks: int)
    requires Ack(ACCEPTED, m) in heard && (items.Some? ==> CountIs(|items.value|, m) in heard)
    requires items.None? ==> outcome == VerificationFailed && ticks >= ITEM_TIMEOUT
    requires items.Some? ==> outcome == if |items.value| <= Remaining(m) then Cleared else StillPresent(|items.value|)
    ensures ClearFollows(outcome, heard, m, ticks)
  {}

  lemma ClearRefused(kind: Option<nat>, heard: seq<ToGround>, m: nat, ticks: int)
    requires kind.Some? ==> kind.value != ACCEPTED && Ack(kind.value, m) in heard
    requires kind.None? ==> ticks >= CLEAR_TIMEOUT && forall x :: x in heard ==> !Wanted(AckOf(m), x)
    ensures ClearFollows(if kind.None? then ClearTimedOut else ClearRejected(kind.value), heard, m, ticks)
  {}

  lemma ClearSends(w: World, m: nat)
    ensures NotLonger(Sent(w, ClearAll(m)), w)
    ensures Bounded(w) ==> Bounded(Sent(w, ClearAll(m)))
  {
    if Bounded(w) {
      BoundedSends(w, ClearAll(m));
    }
  }

  lemma DownloadIsNotLonger(w: World, before: World, start: World, m: nat)
    requires Undisturbed(w, before) && NotLonger(before, start)
    ensures NotLonger(w, start)
    ensures Bounded(before) ==> Bounded(w)
  {}

  // ----- verify_round_trip

  const TOLERANCE: real := 0.0000001

  predicate Close(a: real, b: real) {
    -TOLERANCE <= a - b <= TOLERANCE
  }

  /** Field by field. */
  predicate SameItem(a: MissionItem, b: MissionItem) {
    && a.seqNo == b.seqNo && a.frame == b.frame && a.command == b.command
    && Close(a.param1, b.param1) && Close(a.param2, b.param2) && Close(a.param3, b.param3) && Close(a.param4, b.param4)
    && a.x == b.x && a.y == b.y && Close(a.z, b.z)
    && a.missionType == b.missionType && a.autocontinue == b.autocontinue && a.current == b.current
  }

  /** Equal but for a ten-millionth in each of the parameters and in the height. */
  lemma SameItemIff(a: MissionItem, b: MissionItem)
    ensures SameItem(a, b) <==>
            && -1.0 <= 10000000.0 * (a.param1 - b.param1) <= 1.0 && -1.0 <= 10000000.0 * (a.param2 - b.param2) <= 1.0
            && -1.0 <= 10000000.0 * (a.param3 - b.param3) <= 1.0 && -1.0 <= 10000000.0 * (a.param4 - b.param4) <= 1.0
            && -1.0 <= 10000000.0 * (a.z - b.z) <= 1.0
            && a == b.(param1 := a.param1, param2 := a.param2, param3 := a.param3, param4 := a.param4, z := a.z)
  {
    TolerableIff(a.param1, b.param1);
    TolerableIff(a.param2, b.param2);
    TolerableIff(a.param3, b.param3);
    TolerableIff(a.param4, b.param4);
    TolerableIff(a.z, b.z);
  }

  lemma TolerableIff(x: real, y: real)
    ensures Close(x, y) <==> -1.0 <= 10000000.0 * (x - y) <= 1.0
  {}

  predicate SameList(a: seq<MissionItem>, b: seq<MissionItem>) {
    |a| == |b| && forall i :: 0 <= i < |a| ==> SameItem(a[i], b[i])
  }

  datatype Field =
    | FSeq | FFrame | FCommand | FParam1 | FParam2 | FParam3 | FParam4 | FX | FY | FZ | FType | FAuto | FCurrent

  /** One comparison: a field that differs is noted. */
  method Noted(fields: seq<Field>, same: bool, f: Field) returns (more: seq<Field>)
    ensures more == if same then fields else fields + [f]
    ensures more == [] <==> fields == [] && same
  {
    return if same then fields else fields + [f];
  }

  /** The fields in which two items differ, in the order in which they are reported. */
  method Mismatches(a: MissionItem, b: MissionItem) returns (fields: seq<Field>)
    ensures fields == [] <==> SameItem(a, b)
  {
    hide Close;
    fields := [];
    fields := Noted(fields, a.seqNo == b.seqNo, FSeq);
    fields := Noted(fields, a.frame == b.frame, FFrame);
    fields := Noted(fields, a.command == b.command, FCommand);
    fields := Noted(fields, Close(a.param1, b.param1), FParam1);
    fields := Noted(fields, Close(a.param2, b.param2), FParam2);
    fields := Noted(fields, Close(a.param3, b.param3), FParam3);
    fields := Noted(fields, Close(a.param4, b.param4), FParam4);
    fields := Noted(fields, a.x == b.x, FX);
    fields := Noted(fields, a.y == b.y, FY);
    fields := Noted(fields, Close(a.z, b.z), FZ);
    fields := Noted(fields, a.missionType == b.missionType, FType);
    fields := Noted(fields, a.autocontinue == b.autocontinue, FAuto);
    fields := Noted(fields, a.current == b.current, FCurrent);
  }

  /**
   verify_round_trip: true exactly when the download comes through and matches.  Against a faithful
   vehicle that means that the vehicle's list, as reported, matches the expected one.  No list is
   changed.
   */
  method VerifyRoundTrip(link: Link, expected: seq<MissionItem>, m: nat)
    returns (ok: bool, ghost downloaded: Option<seq<MissionItem>>)
    requires link.Valid()
    modifies link
    ensures link.Valid() && old(link.trace) <= link.trace
    ensures (downloaded, link.View()) == DownloadRun(old(link.View()), m)
    ensures ok <==> downloaded.Some? && SameList(expected, downloaded.value)
    ensures old(link.heard) <= link.heard && old(link.said) <= link.said && old(link.clock) <= link.clock
    ensures Clears(link.said) == Clears(old(link.said))
    ensures var heard := Since(link.heard, old(link.heard));
            if downloaded.None? then
              GaveUp(heard, link.said, old(link.said), m, link.Late(), link.clock - link.sentAt)
            else
              && CountIs(|downloaded.value|, m) in heard && WellNumbered(downloaded.value, m)
              && forall k :: 0 <= k < |downloaded.value| ==> ItemIs(downloaded.value[k]) in heard
    ensures old(Honest(link.events)) ==> Honest(link.events) && Undisturbed(link.world, old(link.world))
    ensures old(Honest(link.events)) && old(Faithful(link.world, m)) && downloaded.Some? ==>
              (ok <==> SameList(expected, Reported(Held(old(link.world), m), m)))
  {
    hide DownloadRun;
    hide Undisturbed, Faithful, Tells, GaveUp, Clears, Link.Recorded;
    var result := DownloadMission(link, m);
    downloaded := result;
    if result.None? {
      return false, downloaded;
    }
    if |result.value| != |expected| {
      return false, downloaded;
    }
    ok := CompareItems(expected, result.value);
  }

  /** The comparison loop: two lists of one length match when no field differs. */
  method CompareItems(expected: seq<MissionItem>, downloaded: seq<MissionItem>) returns (same: bool)
    requires |expected| == |downloaded|
    ensures same <==> SameList(expected, downloaded)
  {
    var mismatches: seq<(nat, Field)> := [];
    for i := 0 to |expected|
      invariant mismatches == [] <==> forall k :: 0 <= k < i ==> SameItem(expected[k], downloaded[k])
    {
      var fields := Mismatches(expected[i], downloaded[i]);
      mismatches := mismatches + seq(|fields|, j requires 0 <= j < |fields| => (i, fields[j]));
    }
    return mismatches == [];
  }
}
