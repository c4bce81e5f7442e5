/** The transactions of the mission protocol as functions of where a connection stands. */
module Protocol {
  import opened Reading
  import opened Vehicle
  import opened Wrappers

  /** Time in hundredths of a second, the length of one sleep. */
  const REQUEST_TIMEOUT: nat := 1000
  const ACK_TIMEOUT: nat := 500
  const COUNT_TIMEOUT: nat := 1000
  const ITEM_TIMEOUT: nat := 500
  const CLEAR_TIMEOUT: nat := 500

  predicate Numbered(items: seq<MissionItem>) {
    forall i :: 0 <= i < |items| ==> items[i].seqNo == i
  }

  // ----- upload_mission

  /** A normal return, early or after the last item; an empty list; or the reason of the error. */
  datatype UploadOutcome =
    | Uploaded(early: bool)
    | NothingToUpload
    | TimedOut
    | Rejected(kind: nat)
    | BadRequest(seqNo: nat)

  predicate GoodRequest(m: ToGround, items: seq<MissionItem>) {
    m.Request? && m.seqNo < |items|
  }

  /** What a message ends the upload with. */
  function Verdict(m: ToGround, early: bool): UploadOutcome
    requires m.Ack? || m.Request?
  {
    if m.Request? then BadRequest(m.seqNo)
    else if m.kind == ACCEPTED then Uploaded(early)
    else Rejected(m.kind)
  }

  /** An upload under way: perhaps how it ended, the items sent, and where the connection stands. */
  datatype Serving = Serving(done: Option<UploadOutcome>, sent: set<nat>, at: Spot)

  /** One round of the first loop: a request is answered, or the message ends it, or there is none. */
  function Round(at: Spot, items: seq<MissionItem>, sent: set<nat>): (r: Serving)
    ensures r.done.None? ==> |r.at.events| < |at.events| || (r.at.events == at.events && r.at.clock > at.clock)
  {
    var r := Read(at, UploadAnswers);
    if r.0.None? then Serving(None, sent, Slept(r.1))
    else if GoodRequest(r.0.value, items) then
      Serving(None, sent + {r.0.value.seqNo}, Told(r.1, ItemInt(items[r.0.value.seqNo])))
    else Serving(Some(Verdict(r.0.value, true)), sent, r.1)
  }

  /** The first loop, begun at the given time, until every item was sent or it comes to an end. */
  function Serve(at: Spot, start: nat, items: seq<MissionItem>, sent: set<nat>): Serving
    decreases |at.events|, start + REQUEST_TIMEOUT + 1 - at.clock
  {
    if |sent| >= |items| then Serving(None, sent, at)
    else if at.clock - start > REQUEST_TIMEOUT then Serving(Some(TimedOut), sent, at)
    else
      var r := Round(at, items, sent);
      if r.done.Some? then r else Serve(r.at, start, items, r.sent)
  }

  lemma ServeUnfolds(at: Spot, start: nat, items: seq<MissionItem>, sent: set<nat>)
    ensures Serve(at, start, items, sent) ==
            if |sent| >= |items| then Serving(None, sent, at)
            else if at.clock - start > REQUEST_TIMEOUT then Serving(Some(TimedOut), sent, at)
            else
              var r := Round(at, items, sent);
              if r.done.Some? then r else Serve(r.at, start, items, r.sent)
  {
    hide Round;
  }

  /** The second loop: only an acknowledgement ends it before its time. */
  function Conclude(at: Spot): (UploadOutcome, Spot) {
    var r := Await(at, at.clock + ACK_TIMEOUT, Acks, Acks);
    (if r.0.None? then TimedOut else Verdict(r.0.value, false), r.1)
  }

  function UploadRun(at: Spot, items: seq<MissionItem>, m: nat): (UploadOutcome, Spot) {
    if items == [] then (NothingToUpload, at)
    else
      var r := Serve(Told(at, Count(|items|, m)), at.clock, items, {});
      if r.done.Some? then (r.done.value, r.at) else Conclude(r.at)
  }

  lemma UploadRunUnfolds(at: Spot, items: seq<MissionItem>, m: nat)
    ensures UploadRun(at, items, m) ==
            if items == [] then (NothingToUpload, at)
            else
              var r := Serve(Told(at, Count(|items|, m)), at.clock, items, {});
              if r.done.Some? then (r.done.value, r.at) else Conclude(r.at)
  {
    hide Serve, Conclude, Told;
  }

  /**
   While events are left the first loop does not sleep more often than events pass: it cannot run
   out of time without having read what there was.
   */
  lemma {:induction false} ServeIsAttentive(at: Spot, start: nat, items: seq<MissionItem>, sent: set<nat>)
    ensures var r := Serve(at, start, items, sent).at;
            |r.events| <= |at.events| &&
            var n := Took(at, r);
            && r.events == at.events[n..]
            && (r.events != [] ==> r.clock <= at.clock + Elapsed(at.events[..n]) + n)
    decreases |at.events|, start + REQUEST_TIMEOUT + 1 - at.clock
  {
    hide Serve, Round;
    ServeUnfolds(at, start, items, sent);
    assert at.events[0..] == at.events;
    if |sent| < |items| && at.clock - start <= REQUEST_TIMEOUT {
      var one := Round(at, items, sent);
      RoundIsAttentive(at, items, sent);
      if one.done.None? {
        ServeIsAttentive(one.at, start, items, one.sent);
        var n, k := Took(at, one.at), Took(one.at, Serve(one.at, start, items, one.sent).at);
        ElapsedOfBoth(at.events[..n], one.at.events[..k]);
        assert at.events[..n] + at.events[n..][..k] == at.events[..n + k];
        assert at.events[n..][k..] == at.events[n + k..];
      }
    }
  }

  lemma RoundIsAttentive(at: Spot, items: seq<MissionItem>, sent: set<nat>)
    ensures var r := Round(at, items, sent).at;
            |r.events| <= |at.events| &&
            var n := Took(at, r);
            && r.events == at.events[n..]
            && r.clock <= at.clock + Elapsed(at.events[..n]) + (if at.events == [] then 1 else n)
  {
    hide Read, Wanted;
    var r := Read(at, UploadAnswers);
    ReadTakesTheFirst(at, UploadAnswers);
    LaterIs(at, Took(at, r.1));
  }

  /**
   An upload that runs out of time in the second loop has missed nothing: no acknowledgement was
   delivered in five seconds, during which it slept no more often than events passed.
   */
  lemma TimedOutIsSilence(at: Spot)
    ensures var r := Conclude(at);
            |r.1.events| <= |at.events| &&
            var n := Took(at, r.1);
            && r.1.events == at.events[n..]
            && (r.0 == TimedOut <==> Chosen(Delivered(at, n), Acks) == [])
            && (r.0 == TimedOut ==> r.1.clock >= at.clock + 500)
            && (r.1.events != [] ==> r.1.clock <= at.clock + Elapsed(at.events[..n]) + n)
  {
    hide Await, Chosen, Delivered, Later, Wanted;
    assert Covers(Acks, Acks);
    AwaitTakesTheFirst(at, at.clock + ACK_TIMEOUT, Acks, Acks);
    LaterIs(at, Took(at, Await(at, at.clock + ACK_TIMEOUT, Acks, Acks).1));
  }

  // ----- download_mission

  /** The items from the k-th on, of n announced. */
  function FetchRun(at: Spot, m: nat, n: nat, k: nat): (r: (Option<seq<MissionItem>>, Spot))
    decreases n - k
  {
    if k >= n then (Some([]), at)
    else
      var r := Await(Told(at, RequestItem(k, m)), at.clock + ITEM_TIMEOUT, Items, ItemOf(m, k));
      if r.0.None? then (None, r.1)
      else
        Behind([r.0.value.item], FetchRun(r.1, m, n, k + 1))
  }

  /** Items already fetched, in front of those that still come. */
  function Behind(got: seq<MissionItem>, r: (Option<seq<MissionItem>>, Spot)): (Option<seq<MissionItem>>, Spot) {
    (if r.0.None? then None else Some(got + r.0.value), r.1)
  }

  lemma FetchUnfolds(at: Spot, m: nat, n: nat, k: nat)
    requires k < n
    ensures var r := Await(Told(at, RequestItem(k, m)), at.clock + ITEM_TIMEOUT, Items, ItemOf(m, k));
            FetchRun(at, m, n, k) ==
            if r.0.None? then (None, r.1) else Behind([r.0.value.item], FetchRun(r.1, m, n, k + 1))
  {
    hide Await, Told;
  }

  lemma FetchEnds(at: Spot, m: nat, n: nat)
    ensures FetchRun(at, m, n, n) == (Some([]), at)
  {}

  function DownloadRun(at: Spot, m: nat): (Option<seq<MissionItem>>, Spot) {
    var counted := Await(Told(at, RequestList(m)), at.clock + COUNT_TIMEOUT, Counts, CountOf(m));
    if counted.0.None? then (None, counted.1)
    else
      var r := FetchRun(counted.1, m, counted.0.value.count, 0);
      if r.0.None? || counted.0.value.count == 0 then r else (r.0, Told(r.1, DownloadAck(m)))
  }

  lemma DownloadRunUnfolds(at: Spot, m: nat)
    ensures var counted := Await(Told(at, RequestList(m)), at.clock + COUNT_TIMEOUT, Counts, CountOf(m));
            DownloadRun(at, m) ==
            if counted.0.None? then (None, counted.1)
            else
              var r := FetchRun(counted.1, m, counted.0.value.count, 0);
              if r.0.None? || counted.0.value.count == 0 then r else (r.0, Told(r.1, DownloadAck(m)))
  {
    hide Await, FetchRun, Told;
  }

  // ----- clear_mission

  /** A normal return, or the reason of the error. */
  datatype ClearOutcome =
    | Cleared
    | ClearRejected(kind: nat)
    | ClearTimedOut
    | VerificationFailed
    | StillPresent(count: nat)

  /** How many items a cleared list may still have: the home position stays in a mission. */
  function Remaining(m: nat): nat {
    if m == 0 then 1 else 0
  }

  function ClearRun(at: Spot, m: nat): (ClearOutcome, Spot) {
    var r := Await(Told(at, ClearAll(m)), at.clock + CLEAR_TIMEOUT, Acks, AckOf(m));
    if r.0.None? then (ClearTimedOut, r.1)
    else if r.0.value.kind != ACCEPTED then (ClearRejected(r.0.value.kind), r.1)
    else
      var d := DownloadRun(r.1, m);
      (if d.0.None? then VerificationFailed
       else if |d.0.value| <= Remaining(m) then Cleared else StillPresent(|d.0.value|), d.1)
  }

  // ----- the uploads of a zone

  predicate Failed(outcome: UploadOutcome) {
    !outcome.Uploaded? && !outcome.NothingToUpload?
  }

  /** The first k lists, uploaded in turn and given up at the first that fails. */
  function UploadsRun(at: Spot, lists: seq<seq<MissionItem>>, k: nat): (bool, Spot)
    requires k <= |lists|
  {
    if k == 0 then (true, at)
    else
      var before := UploadsRun(at, lists, k - 1);
      if !before.0 then before
      else
        var r := UploadRun(before.1, lists[k - 1], k - 1);
        (!Failed(r.0), r.1)
  }

  lemma {:induction false} UploadsGiveUp(at: Spot, lists: seq<seq<MissionItem>>, k: nat, n: nat)
    requires k <= n <= |lists| && !UploadsRun(at, lists, k).0
    ensures UploadsRun(at, lists, n) == UploadsRun(at, lists, k)
    decreases n - k
  {
    hide UploadRun;
    if k < n {
      UploadsGiveUp(at, lists, k, n - 1);
    }
  }
}
