/** The upload of a zone: three lists, all of them or none. */
module Zone {
  import opened Wrappers
  import opened Connection
  import opened Deeds
  import opened Protocol
  import opened Reading
  import opened Schedules
  import opened Vehicle
  import opened Mission

  /** A normal return, or the exception, which says nothing but that all missions were cleared. */
  datatype ZoneOutcome = Done | ZoneUploadError

  /** The line before the upload of a zone: nothing left over, nothing asked about the lists. */
  ghost predicate Idle(link: Link)
    reads link`world, link`events
  {
    Ready(link) && NoLists(link.world)
  }

  /** The list was replaced, or there was nothing to replace it with. */
  ghost predicate Replaced(w: World, start: World, m: nat, items: seq<MissionItem>) {
    Held(w, m) == if items == [] then Held(start, m) else items
  }

  ghost predicate AllReplaced(w: World, start: World, lists: seq<seq<MissionItem>>) {
    forall i :: 0 <= i < |lists| ==> Replaced(w, start, i, lists[i])
  }

  // ----- transactions one after the other

  /** One transaction: how it ended, what was read during it, when it began and when it ended. */
  datatype Round<T> = Round(outcome: T, heard: seq<ToGround>, began: nat, ended: nat)

  function Heard<T>(rounds: seq<Round<T>>): seq<ToGround> {
    if rounds == [] then [] else Heard(rounds[..|rounds| - 1]) + rounds[|rounds| - 1].heard
  }

  function Till<T>(rounds: seq<Round<T>>, from: nat): nat {
    if rounds == [] then from else rounds[|rounds| - 1].ended
  }

  /** The first begins at the given time, every other one when the one before it has ended. */
  predicate Consecutive<T>(rounds: seq<Round<T>>, from: nat) {
    forall i :: 0 <= i < |rounds| ==> rounds[i].began == Till(rounds[..i], from)
  }

  lemma OneMoreRound<T>(rounds: seq<Round<T>>, more: Round<T>, from: nat)
    requires Consecutive(rounds, from) && more.began == Till(rounds, from)
    ensures Consecutive(rounds + [more], from) && Till(rounds + [more], from) == more.ended
    ensures Heard(rounds + [more]) == Heard(rounds) + more.heard
  {
    var all := rounds + [more];
    assert all[..|rounds|] == rounds;
    forall i | 0 <= i < |all|
      ensures all[i].began == Till(all[..i], from)
    {
      assert i < |rounds| ==> all[..i] == rounds[..i];
    }
  }

  /** Uploads of the lists in turn, up to the first that fails; the messages of each account for its outcome. */
  ghost predicate UploadsInTurn(rounds: seq<Round<UploadOutcome>>, lists: seq<seq<MissionItem>>) {
    && |rounds| <= |lists|
    && (forall i :: 0 <= i < |rounds| - 1 ==> !Failed(rounds[i].outcome))
    && (forall i :: 0 <= i < |rounds| ==> Earned(rounds[i], lists[i]))
  }

  ghost predicate Earned(round: Round<UploadOutcome>, items: seq<MissionItem>) {
    if items == [] then round == Round(NothingToUpload, [], round.began, round.began)
    else Follows(round.outcome, round.heard, items, round.ended - round.began)
  }

  /** Clears of the lists 0, 1, 2 in turn, up to the first that fails. */
  ghost predicate ClearsInTurn(rounds: seq<Round<ClearOutcome>>) {
    && |rounds| <= 3
    && (forall i :: 0 <= i < |rounds| - 1 ==> rounds[i].outcome.Cleared?)
    && (forall i :: 0 <= i < |rounds| ==>
          ClearFollows(rounds[i].outcome, rounds[i].heard, i, rounds[i].ended - rounds[i].began))
  }

  /** All three were cleared. */
  predicate WentThrough(rounds: seq<Round<ClearOutcome>>) {
    |rounds| == 3 && rounds[2].outcome.Cleared?
  }

  predicate AllNumbered(lists: seq<seq<MissionItem>>) {
    forall i :: 0 <= i < |lists| ==> Numbered(lists[i])
  }

  // ----- the uploads

  /** One upload among others; after it the line is idle again, unless it failed. */
  method UploadOne(link: Link, items: seq<MissionItem>, m: nat) returns (ok: bool, ghost round: Round<UploadOutcome>)
    requires link.Valid()
    modifies link
    ensures link.Valid() && old(link.trace) <= link.trace && Clears(link.said) == Clears(old(link.said))
    ensures link.heard == old(link.heard) + round.heard && old(link.said) <= link.said
    ensures old(link.clock) == round.began <= round.ended == link.clock
    ensures Earned(round, items) && ok == !Failed(round.outcome)
    ensures (round.outcome, link.View()) == UploadRun(old(link.View()), items, m)
    ensures old(Idle(link)) && Numbered(items) ==>
              && Honest(link.events) && NoLists(link.world)
              && (ok ==> Idle(link) && Replaced(link.world, old(link.world), m, items))
              && forall t: nat :: t != m ==> Held(link.world, t) == Held(old(link.world), t)
  {
    hide Uploading, Fresh, NoLists, Follows, Answers, Clears, UploadRun;
    var outcome := UploadMission(link, items, m);
    round := Round(outcome, Since(link.heard, old(link.heard)), old(link.clock), link.clock);
    if items != [] {
      UploadClearsNothing(old(link.said), |items|, m, round.heard, items);
    }
    ok := outcome.Uploaded? || outcome.NothingToUpload?;
  }

  /** The uploads up to now, which all went well but perhaps the last. */
  ghost predicate UploadsSoFar(link: Link, rounds: seq<Round<UploadOutcome>>, lists: seq<seq<MissionItem>>,
                               from: nat, heard: seq<ToGround>, clears: seq<nat>)
    reads link
  {
    && UploadsInTurn(rounds, lists) && Consecutive(rounds, from) && link.clock == Till(rounds, from)
    && link.heard == heard + Heard(rounds) && Clears(link.said) == clears
  }

  predicate NoneFailed(rounds: seq<Round<UploadOutcome>>) {
    forall i :: 0 <= i < |rounds| ==> !Failed(rounds[i].outcome)
  }

  /** The first n lists were replaced, the others are as they were. */
  ghost predicate ReplacedUpTo(w: World, start: World, lists: seq<seq<MissionItem>>, n: nat)
    requires n <= |lists|
  {
    && (forall i :: 0 <= i < n ==> Replaced(w, start, i, lists[i]))
    && forall t: nat :: n <= t ==> Held(w, t) == Held(start, t)
  }

  lemma OneMoreReplaced(w: World, before: World, start: World, lists: seq<seq<MissionItem>>, m: nat)
    requires m < |lists| && ReplacedUpTo(before, start, lists, m) && Replaced(w, before, m, lists[m])
    requires forall t: nat :: t != m ==> Held(w, t) == Held(before, t)
    ensures ReplacedUpTo(w, start, lists, m + 1)
  {
    assert forall i :: 0 <= i < m ==> Replaced(before, start, i, lists[i]);
  }

  /** One more upload, the next list being that of type m. */
  method UploadNext(link: Link, lists: seq<seq<MissionItem>>, m: nat, ghost rounds: seq<Round<UploadOutcome>>,
            ghost from: nat, ghost heard: seq<ToGround>, ghost clears: seq<nat>, ghost start: Spot, ghost sound: bool)
    returns (ok: bool, ghost more: seq<Round<UploadOutcome>>)
    requires link.Valid() && m == |rounds| < |lists| && NoneFailed(rounds)
    requires UploadsSoFar(link, rounds, lists, from, heard, clears)
    requires sound ==> AllNumbered(lists) && Idle(link) && ReplacedUpTo(link.world, start.world, lists, m)
    requires (true, link.View()) == UploadsRun(start, lists, m)
    modifies link
    ensures link.Valid() && old(link.trace) <= link.trace && old(link.said) <= link.said
    ensures UploadsSoFar(link, more, lists, from, heard, clears) && |more| == m + 1
    ensures if ok then NoneFailed(more) else Failed(more[m].outcome)
    ensures (ok, link.View()) == UploadsRun(start, lists, m + 1)
    ensures sound ==>
              && Honest(link.events) && NoLists(link.world)
              && (ok ==> Idle(link) && ReplacedUpTo(link.world, start.world, lists, m + 1))
  {
    hide Idle, Fresh, NoLists, Clears, Earned, Numbered, Honest, Link.Valid, Held, Failed, ReplacedUpTo, Replaced;
    hide UploadRun;
    ghost var before := link.world;
    ghost var round;
    ok, round := UploadOne(link, lists[m], m);
    more := rounds + [round];
    OneMoreRound(rounds, round, from);
    if sound && ok {
      OneMoreReplaced(link.world, before, start.world, lists, m);
    }
  }

  /** The three uploads, given up at the first that fails. */
  method UploadAll(link: Link, lists: seq<seq<MissionItem>>) returns (ok: bool, ghost rounds: seq<Round<UploadOutcome>>)
    requires link.Valid() && |lists| == 3
    modifies link
    ensures link.Valid() && old(link.trace) <= link.trace && old(link.said) <= link.said
    ensures UploadsSoFar(link, rounds, lists, old(link.clock), old(link.heard), Clears(old(link.said)))
    ensures (ok, link.View()) == UploadsRun(old(link.View()), lists, 3)
    ensures if ok then |rounds| == 3 && NoneFailed(rounds)
            else rounds != [] && Failed(rounds[|rounds| - 1].outcome)
    ensures old(Idle(link)) && AllNumbered(lists) ==>
              && Honest(link.events) && NoLists(link.world)
              && (ok ==> Idle(link) && AllReplaced(link.world, old(link.world), lists))
  {
    hide *;
    ghost var from, heard, clears, start := link.clock, link.heard, Clears(link.said), link.View();
    ViewIs(link);
    ghost var sound := Idle(link) && AllNumbered(lists);
    NoUploads(link, lists);
    ok, rounds := UploadNext(link, lists, 0, [], from, heard, clears, start, sound);
    if ok {
      ok, rounds := UploadNext(link, lists, 1, rounds, from, heard, clears, start, sound);
    }
    if ok {
      ok, rounds := UploadNext(link, lists, 2, rounds, from, heard, clears, start, sound);
    }
    ghost var k: nat := |rounds|;
    if !ok {
      UploadsGiveUp(start, lists, k, 3);
    }
    if sound && ok {
      ReplacedAll(link.world, start.world, lists);
    }
  }

  lemma ViewIs(link: Link)
    ensures link.View() == Spot(link.world, link.events, link.clock)
  {}

  lemma NoUploads(link: Link, lists: seq<seq<MissionItem>>)
    ensures UploadsSoFar(link, [], lists, link.clock, link.heard, Clears(link.said)) && NoneFailed([])
    ensures ReplacedUpTo(link.world, link.world, lists, 0)
    ensures UploadsRun(link.View(), lists, 0) == (true, link.View())
  {}

  lemma UploadsUnfold(link: Link, rounds: seq<Round<UploadOutcome>>, lists: seq<seq<MissionItem>>, from: nat,
          heard: seq<ToGround>, clears: seq<nat>)
    requires UploadsSoFar(link, rounds, lists, from, heard, clears)
    ensures UploadsInTurn(rounds, lists) && Consecutive(rounds, from) && link.clock == Till(rounds, from)
    ensures link.heard == heard + Heard(rounds) && Clears(link.said) == clears
  {}

  lemma ReplacedAll(w: World, start: World, lists: seq<seq<MissionItem>>)
    requires ReplacedUpTo(w, start, lists, |lists|)
    ensures AllReplaced(w, start, lists)
  {}

  // ----- the verification

  /** What a verification found: its answer, and what it downloaded. */
  datatype Check = Check(ok: bool, downloaded: Option<seq<MissionItem>>)

  /** A list that comes back as it was sent: numbered, and all of it of the type it was sent under. */
  predicate Typed(items: seq<MissionItem>, m: nat) {
    forall i :: 0 <= i < |items| ==> items[i].missionType == m
  }

  /** A list that is stored as it is compares equal exactly when its items bear its type and their numbers. */
  lemma ComesBackIff(items: seq<MissionItem>, m: nat)
    ensures SameList(items, Reported(items, m)) <==> Numbered(items) && Typed(items, m)
  {
    var r := Reported(items, m);
    forall i | 0 <= i < |items|
      ensures SameItem(items[i], r[i]) <==> items[i].seqNo == i && items[i].missionType == m
    {
      assert r[i] == Reply(items, m, i);
    }
  }

  /** Each answer is what the download says. */
  predicate Answered(checks: seq<Check>, lists: seq<seq<MissionItem>>) {
    && |checks| <= |lists|
    && forall i :: 0 <= i < |checks| ==>
         (checks[i].ok <==> checks[i].downloaded.Some? && SameList(lists[i], checks[i].downloaded.value))
  }

  /** Each answer to a download that came through is true of the list that is stored. */
  predicate TrueOfStored(checks: seq<Check>, lists: seq<seq<MissionItem>>, w: World) {
    && |checks| <= |lists|
    && forall i :: 0 <= i < |checks| && checks[i].downloaded.Some? ==>
         (checks[i].ok <==> SameList(lists[i], Reported(Held(w, i), i)))
  }

  /** The lists are what they were at the start, and what is said about them is true. */
  ghost predicate Undistorted(link: Link, start: World)
    reads link`world, link`events
  {
    && Honest(link.events) && Quiet(link.world) && link.world.stored == start.stored
    && forall t: nat :: Faithful(link.world, t)
  }

  /** One more download. */
  method VerifyNext(link: Link, lists: seq<seq<MissionItem>>, m: nat, ghost checks: seq<Check>, ghost start: World,
            ghost sound: bool)
    returns (ghost more: seq<Check>)
    requires link.Valid() && m == |checks| < |lists| && Answered(checks, lists)
    requires sound ==> Undistorted(link, start) && TrueOfStored(checks, lists, start)
    modifies link
    ensures link.Valid() && old(link.trace) <= link.trace && Clears(link.said) == Clears(old(link.said))
    ensures old(link.heard) <= link.heard && old(link.said) <= link.said && old(link.clock) <= link.clock
    ensures |more| == m + 1 && Answered(more, lists)
    ensures sound ==> Undistorted(link, start) && TrueOfStored(more, lists, start)
  {
    hide DownloadRun, Quiet, GaveUp, Faithful, Bounded, Clears, SameList, WellNumbered, Honest, Link.Valid;
    var ok, downloaded := VerifyRoundTrip(link, lists[m], m);
    more := checks + [Check(ok, downloaded)];
  }

  /**
   The three downloads after the uploads; what they find is not looked at.  On a line without
   leftovers each that gets its list tells whether it is the expected one.
   */
  method VerifyAll(link: Link, lists: seq<seq<MissionItem>>) returns (ghost checks: seq<Check>)
    requires link.Valid() && |lists| == 3
    modifies link
    ensures link.Valid() && old(link.trace) <= link.trace && Clears(link.said) == Clears(old(link.said))
    ensures old(link.heard) <= link.heard && old(link.said) <= link.said && old(link.clock) <= link.clock
    ensures |checks| == 3 && Answered(checks, lists)
    ensures old(Idle(link)) ==>
              link.world.stored == old(link.world.stored) && TrueOfStored(checks, lists, old(link.world))
  {
    hide *;
    ghost var start, sound := link.world, Idle(link);
    NothingChecked(link, lists);
    checks := VerifyNext(link, lists, 0, [], start, sound);
    checks := VerifyNext(link, lists, 1, checks, start, sound);
    checks := VerifyNext(link, lists, 2, checks, start, sound);
    if sound {
      UndistortedKeeps(link, start);
    }
  }

  lemma NothingChecked(link: Link, lists: seq<seq<MissionItem>>)
    ensures Answered([], lists) && TrueOfStored([], lists, link.world)
    ensures Idle(link) ==> Undistorted(link, link.world)
  {
    if Idle(link) {
      AllFaithful(link.world);
    }
  }

  lemma UndistortedKeeps(link: Link, start: World)
    requires Undistorted(link, start)
    ensures link.world.stored == start.stored
  {}

  lemma AllFaithful(w: World)
    requires Fresh(w) && NoLists(w)
    ensures Quiet(w) && forall t: nat :: Faithful(w, t)
  {
    hide Faithful, NoLists;
    forall t: nat
      ensures Faithful(w, t)
    {
      FaithfulStarts(w, t);
    }
  }

  // ----- the clears

  /** The clears up to now, which all went through but perhaps the last. */
  ghost predicate ClearsSoFar(link: Link, rounds: seq<Round<ClearOutcome>>, from: nat, heard: seq<ToGround>,
                              clears: seq<nat>)
    reads link
  {
    && ClearsInTurn(rounds) && Consecutive(rounds, from) && link.clock == Till(rounds, from)
    && link.heard == heard + Heard(rounds) && Clears(link.said) == clears + [0, 1, 2][..|rounds|]
  }

  predicate AllCleared(rounds: seq<Round<ClearOutcome>>) {
    forall i :: 0 <= i < |rounds| ==> rounds[i].outcome.Cleared?
  }

  /** The first m lists hold no more than they may, and no upload can add to them. */
  ghost predicate EmptySoFar(link: Link, m: nat)
    reads link`world, link`events
  {
    Clearing(link) && (m > 0 ==> Settled(link.world)) && EmptiedUpTo(link.world, m)
  }

  /** One more clear. */
  method ClearNext(link: Link, m: nat, ghost rounds: seq<Round<ClearOutcome>>, ghost from: nat,
            ghost heard: seq<ToGround>, ghost clears: seq<nat>, ghost sound: bool)
    returns (ok: bool, ghost more: seq<Round<ClearOutcome>>)
    requires link.Valid() && m == |rounds| < 3 && AllCleared(rounds)
    requires ClearsSoFar(link, rounds, from, heard, clears)
    requires sound ==> EmptySoFar(link, m)
    modifies link
    ensures link.Valid() && old(link.trace) <= link.trace && old(link.said) <= link.said
    ensures ClearsSoFar(link, more, from, heard, clears) && |more| == m + 1
    ensures if ok then AllCleared(more) else !more[m].outcome.Cleared?
    ensures sound && ok ==> EmptySoFar(link, m + 1)
  {
    hide ClearRun, Link.Recorded, Link.Valid, Held, Clearing, Settled, ClearFollows, GaveUp, Clears, NotLonger;
    hide EmptiedUpTo;
    ghost var before, earlier, began := link.world, link.heard, link.clock;
    var outcome := ClearMission(link, m);
    ghost var round := Round(outcome, Since(link.heard, earlier), began, link.clock);
    OneMoreRound(rounds, round, from);
    more := rounds + [round];
    ok := outcome.Cleared?;
    if sound && ok {
      OneMoreEmptied(link.world, before, m);
    }
  }

  /** The clears after a failure, given up at the first that fails. */
  method ClearAllLists(link: Link) returns (ghost rounds: seq<Round<ClearOutcome>>)
    requires link.Valid()
    modifies link
    ensures link.Valid() && old(link.trace) <= link.trace && old(link.said) <= link.said
    ensures ClearsSoFar(link, rounds, old(link.clock), old(link.heard), Clears(old(link.said)))
    ensures rounds != [] && (|rounds| < 3 ==> !rounds[|rounds| - 1].outcome.Cleared?)
    ensures old(Clearing(link)) && WentThrough(rounds) ==> Emptied(link.world)
  {
    hide *;
    ghost var from, heard, clears, sound := link.clock, link.heard, Clears(link.said), Clearing(link);
    NothingCleared(link);
    var ok;
    ok, rounds := ClearNext(link, 0, [], from, heard, clears, sound);
    if ok {
      ok, rounds := ClearNext(link, 1, rounds, from, heard, clears, sound);
    }
    if ok {
      ok, rounds := ClearNext(link, 2, rounds, from, heard, clears, sound);
    }
    if sound {
      EmptiedWhenThrough(link, rounds, ok);
    }
  }

  lemma NothingCleared(link: Link)
    ensures ClearsSoFar(link, [], link.clock, link.heard, Clears(link.said)) && AllCleared([])
    ensures Clearing(link) ==> EmptySoFar(link, 0)
  {}

  lemma ClearsUnfold(link: Link, rounds: seq<Round<ClearOutcome>>, from: nat, heard: seq<ToGround>, clears: seq<nat>)
    requires ClearsSoFar(link, rounds, from, heard, clears)
    ensures ClearsInTurn(rounds) && Consecutive(rounds, from) && link.clock == Till(rounds, from)
    ensures link.heard == heard + Heard(rounds) && Clears(link.said) == clears + [0, 1, 2][..|rounds|]
  {}

  lemma EmptiedWhenThrough(link: Link, rounds: seq<Round<ClearOutcome>>, ok: bool)
    requires if ok then EmptySoFar(link, 3) else rounds != [] && !rounds[|rounds| - 1].outcome.Cleared?
    ensures WentThrough(rounds) ==> Emptied(link.world)
  {}

  predicate EmptiedUpTo(w: World, m: nat) {
    forall t :: 0 <= t < m ==> |Held(w, t)| <= Remaining(t)
  }

  /** No fence, no rally points, and of a mission at most the home position. */
  predicate Emptied(w: World) {
    EmptiedUpTo(w, 3)
  }

  /** Later clears do not bring back what earlier ones took away. */
  lemma OneMoreEmptied(w: World, before: World, m: nat)
    requires EmptiedUpTo(before, m) && NotLonger(w, before) && (m > 0 ==> Settled(before))
    requires |Held(w, m)| <= Remaining(m)
    ensures EmptiedUpTo(w, m + 1)
  {
    hide Settled;
    forall t | 0 <= t < m
      ensures |Held(w, t)| <= Remaining(t)
    {
      assert Held(w, t) <= Held(before, t);
    }
  }

  // ----- the whole upload

  /** Each verification that got its list says whether the items bear the type they were sent under. */
  ghost predicate Informed(checks: seq<Check>, start: World, lists: seq<seq<MissionItem>>) {
    && |checks| == |lists|
    && forall i :: 0 <= i < |lists| && checks[i].downloaded.Some? ==>
         (checks[i].ok <==> if lists[i] == [] then Held(start, i) == [] else Typed(lists[i], i))
  }

  lemma AllInformed(checks: seq<Check>, w: World, start: World, lists: seq<seq<MissionItem>>)
    requires |checks| == |lists| && AllReplaced(w, start, lists) && AllNumbered(lists)
    requires TrueOfStored(checks, lists, w)
    ensures Informed(checks, start, lists)
  {
    hide SameList, Numbered, Typed, Held;
    forall i | 0 <= i < |lists| && checks[i].downloaded.Some?
      ensures checks[i].ok <==> if lists[i] == [] then Held(start, i) == [] else Typed(lists[i], i)
    {
      assert Replaced(w, start, i, lists[i]);
      if lists[i] == [] {
        NothingComesBack(Held(w, i), i);
      } else {
        ComesBackIff(lists[i], i);
      }
    }
  }

  lemma NothingComesBack(list: seq<MissionItem>, m: nat)
    ensures SameList([], Reported(list, m)) <==> list == []
  {}

  lemma StillReplaced(w: World, before: World, start: World, lists: seq<seq<MissionItem>>)
    requires AllReplaced(before, start, lists) && w.stored == before.stored
    ensures AllReplaced(w, start, lists)
  {
    forall i | 0 <= i < |lists|
      ensures Replaced(w, start, i, lists[i])
    {
      assert Replaced(before, start, i, lists[i]);
    }
  }

  /** What the vehicle does to its lists in a run leaves no more of them than a clear may leave. */
  predicate AllCutDown(start: World, trace: seq<Moment>) {
    forall t :: 0 <= t < 3 ==> KeptShort(Held(start, t), t, DeedsIn(start, trace), Remaining(t))
  }

  /** Whatever is sent and whatever happens: when the lists are empty in the end. */
  lemma EmptiedIff(start: World, trace: seq<Moment>)
    ensures Emptied(Run(start, trace)) <==> AllCutDown(start, trace)
  {
    hide KeptShort, Left, Run, DeedsIn;
    forall t: nat | t < 3
      ensures |Held(Run(start, trace), t)| <= Remaining(t) <==>
              KeptShort(Held(start, t), t, DeedsIn(start, trace), Remaining(t))
    {
      RunLeaves(start, trace, t);
      ShortIff(Held(start, t), t, DeedsIn(start, trace), Remaining(t));
    }
  }

  /**
   _upload_zone_atomically.  It fails exactly when one of the uploads does.  A normal return means
   that all three lists were replaced; otherwise the lists are cleared one after the other, for as
   long as that works.  The exception says that they were; in truth nothing but the home position
   is left exactly when each list was short, or was cut down by a clear that the vehicle took, and
   no upload of it was accepted since.
   */
  method UploadZoneAtomically(link: Link, mission: seq<MissionItem>, fence: seq<MissionItem>, rally: seq<MissionItem>)
    returns (outcome: ZoneOutcome, ghost uploads: seq<Round<UploadOutcome>>, ghost clears: seq<Round<ClearOutcome>>,
             ghost checks: seq<Check>)
    requires link.Valid()
    modifies link
    ensures link.Valid() && old(link.trace) <= link.trace
    ensures UploadsInTurn(uploads, [mission, fence, rally]) && Consecutive(uploads, old(link.clock))
    ensures ClearsInTurn(clears) && Consecutive(clears, Till(uploads, old(link.clock)))
    ensures old(link.said) <= link.said && Clears(link.said) == Clears(old(link.said)) + [0, 1, 2][..|clears|]
    ensures Answered(checks, [mission, fence, rally])
    ensures outcome.Done? <==> UploadsRun(old(link.View()), [mission, fence, rally], 3).0
    ensures match outcome
            case Done =>
              && |uploads| == 3 && NoneFailed(uploads) && clears == [] && |checks| == 3
              && old(link.heard) + Heard(uploads) <= link.heard
            case ZoneUploadError =>
              && uploads != [] && Failed(uploads[|uploads| - 1].outcome)
              && clears != [] && (|clears| < 3 ==> !clears[|clears| - 1].outcome.Cleared?)
              && link.heard == old(link.heard) + Heard(uploads) + Heard(clears)
              && link.clock == Till(clears, Till(uploads, old(link.clock)))
    ensures old(Idle(link)) && AllNumbered([mission, fence, rally]) && outcome.Done? ==>
              && AllReplaced(link.world, old(link.world), [mission, fence, rally])
              && Informed(checks, old(link.world), [mission, fence, rally])
    ensures old(Idle(link)) && AllNumbered([mission, fence, rally]) && outcome.ZoneUploadError? ==>
              (WentThrough(clears) ==> Emptied(link.world))
    ensures link.world == Run(old(link.world), Since(link.trace, old(link.trace)))
    ensures Emptied(link.world) <==> AllCutDown(old(link.world), Since(link.trace, old(link.trace)))
  {
    hide *;
    var lists := [mission, fence, rally];
    ghost var sound := Idle(link) && AllNumbered(lists);
    TraceSoFar(link);
    var ok;
    ok, uploads := UploadAll(link, lists);
    UploadsUnfold(link, uploads, lists, old(link.clock), old(link.heard), Clears(old(link.said)));
    clears, checks := [], [];
    NoChecks(lists);
    if ok {
      NoClears(link.clock, Clears(link.said));
      ghost var before := link.world;
      checks := VerifyAll(link, lists);
      if sound {
        StillReplaced(link.world, before, old(link.world), lists);
        AllInformed(checks, before, old(link.world), lists);
      }
      outcome := Done;
    } else {
      if sound {
        ClearingStarts(link);
      }
      ghost var heard, said, from := link.heard, link.said, link.clock;
      clears := ClearAllLists(link);
      ClearsUnfold(link, clears, from, heard, Clears(said));
      outcome := ZoneUploadError;
    }
    TraceSince(link, old(link.trace), old(link.world));
    EmptiedIff(old(link.world), Since(link.trace, old(link.trace)));
  }

  /**
   On a line where nothing happens any more the exception is raised and the lists are as they were:
   that all missions were cleared is not true of it.
   */
  method OnDeadLine(w: World, mission: seq<MissionItem>, fence: seq<MissionItem>, rally: seq<MissionItem>)
    returns (outcome: ZoneOutcome, left: World)
    ensures outcome == if mission == [] && fence == [] && rally == [] then Done else ZoneUploadError
    ensures left.stored == w.stored
  {
    hide Clears, AllCutDown, AllReplaced, Informed, Emptied, Consecutive, Run, SentIn;
    var link := new Link(w, []);
    ghost var uploads, clears, checks;
    outcome, uploads, clears, checks := UploadZoneAtomically(link, mission, fence, rally);
    NothingRead(uploads);
    left := link.world;
    NothingHappens(w, link.trace);
    if outcome.Done? {
      assert [mission, fence, rally][0] == mission && Earned(uploads[0], mission);
      assert [mission, fence, rally][1] == fence && Earned(uploads[1], fence);
      assert [mission, fence, rally][2] == rally && Earned(uploads[2], rally);
    }
  }

  lemma {:induction false} NothingRead<T>(rounds: seq<Round<T>>)
    requires Heard(rounds) == []
    ensures forall i :: 0 <= i < |rounds| ==> rounds[i].heard == []
  {
    if rounds != [] {
      NothingRead(rounds[..|rounds| - 1]);
    }
  }

  /** The uploads of the lists when nothing is lost; an empty list needs nothing. */
  function ZoneSchedule(lists: seq<seq<MissionItem>>, k: nat): seq<Event>
    requires k <= |lists|
    decreases |lists| - k
  {
    if k == |lists| then []
    else (if lists[k] == [] then [] else UploadSchedule(|lists[k]|, 0)) + ZoneSchedule(lists, k + 1)
  }

  lemma {:induction false} ScheduleIsHonest(n: nat, k: nat)
    requires k <= n
    ensures Honest(UploadSchedule(n, k))
    decreases n - k
  {
    if k < n {
      ScheduleIsHonest(n, k + 1);
    }
  }

  lemma {:induction false} ZoneScheduleIsHonest(lists: seq<seq<MissionItem>>, k: nat)
    requires k <= |lists|
    ensures Honest(ZoneSchedule(lists, k))
    decreases |lists| - k
  {
    hide UploadSchedule;
    if k < |lists| {
      ScheduleIsHonest(|lists[k]|, 0);
      ZoneScheduleIsHonest(lists, k + 1);
    }
  }

  /** After the first k uploads nothing is on its way, and the schedule of the others is still to come. */
  lemma {:induction false} UploadsSucceed(at: Spot, lists: seq<seq<MissionItem>>, k: nat, rest: seq<Event>)
    requires k <= |lists| && AllNumbered(lists) && Empty(at.world)
    requires at.events == ZoneSchedule(lists, 0) + rest
    ensures var r := UploadsRun(at, lists, k);
            r.0 && Empty(r.1.world) && r.1.events == ZoneSchedule(lists, k) + rest
    decreases k
  {
    hide UploadRun, UploadSchedule, Numbered;
    if k > 0 {
      UploadsSucceed(at, lists, k - 1, rest);
      var before := UploadsRun(at, lists, k - 1).1;
      var list := lists[k - 1];
      var more := ZoneSchedule(lists, k) + rest;
      if list == [] {
        NothingUploaded(before, k - 1);
        assert before.events == more;
      } else {
        assert before.events == UploadSchedule(|list|, 0) + more;
        UploadSucceeds(before, list, k - 1, more);
      }
    }
  }

  lemma NothingUploaded(at: Spot, m: nat)
    ensures UploadRun(at, [], m) == (NothingToUpload, at)
  {}

  /**
   On a line where nothing is lost and nothing is left over every zone is uploaded: the call returns
   normally and all three lists are replaced, whatever happens after that.
   */
  method OnGoodLine(w: World, mission: seq<MissionItem>, fence: seq<MissionItem>, rally: seq<MissionItem>,
            rest: seq<Event>)
    returns (outcome: ZoneOutcome, left: World)
    requires Empty(w) && w.open.None? && Honest(rest) && AllNumbered([mission, fence, rally])
    ensures outcome == Done && AllReplaced(left, w, [mission, fence, rally])
  {
    hide Clears, AllCutDown, AllReplaced, Informed, Emptied, Consecutive, Run, SentIn, Heard, UploadsRun, ZoneSchedule;
    hide AllNumbered, UploadsInTurn, ClearsInTurn, Answered;
    var lists := [mission, fence, rally];
    ZoneScheduleIsHonest(lists, 0);
    var link := new Link(w, ZoneSchedule(lists, 0) + rest);
    UploadsSucceed(link.View(), lists, 3, rest);
    ghost var uploads, clears, checks;
    outcome, uploads, clears, checks := UploadZoneAtomically(link, mission, fence, rally);
    left := link.world;
  }

  /** A fence that survives: it is stored, and the line goes dead before a mission is uploaded. */
  method FenceSurvives(fence: MissionItem, waypoint: MissionItem) returns (outcome: ZoneOutcome, left: World)
    ensures outcome.ZoneUploadError? && Held(left, 1) == [fence] && !Emptied(left)
  {
    outcome, left := OnDeadLine(World([], [], None, map[1 := [fence]]), [waypoint], [], []);
  }

  lemma TraceSoFar(link: Link)
    requires link.Valid()
    ensures link.world == Run(link.first, link.trace)
  {}

  lemma TraceSince(link: Link, before: seq<Moment>, start: World)
    requires link.Valid() && before <= link.trace && start == Run(link.first, before)
    ensures link.world == Run(start, Since(link.trace, before))
  {
    RunTwice(link.first, before, Since(link.trace, before));
    assert before + Since(link.trace, before) == link.trace;
  }

  lemma ClearingStarts(link: Link)
    requires NoLists(link.world) && Honest(link.events)
    ensures Clearing(link)
  {
    NoListsIsBounded(link.world);
  }

  lemma NoChecks(lists: seq<seq<MissionItem>>)
    ensures Answered([], lists)
  {}

  lemma NoClears(from: nat, said: seq<nat>)
    ensures ClearsInTurn([]) && Consecutive<ClearOutcome>([], from) && said + [0, 1, 2][..0] == said
  {}
}
