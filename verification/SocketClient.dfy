/** The kiosk's socket client: connection state, reassembly buffer, one frame per poll. */
module SocketClient {
  import opened Bytes
  import opened Framing
  import opened Wrappers

  const RECONNECT_MIN_MS: nat := 500
  const RECONNECT_MAX_MS: nat := 10000

  /** What recv did: bytes, end of stream, nothing for now, or another error. */
  datatype Received = Data(bytes: bytes) | PeerClosed | WouldBlock | RecvError

  /** How far a connection attempt got. */
  datatype Attempt = NoSocket | StaysBlocking | Refused | Accepted

  /** The interval after so many refusals in a row. */
  function Backoff(refusals: nat): (ms: nat)
    ensures RECONNECT_MIN_MS <= ms <= RECONNECT_MAX_MS
  {
    if refusals == 0 then RECONNECT_MIN_MS
    else if 2 * Backoff(refusals - 1) > RECONNECT_MAX_MS then RECONNECT_MAX_MS
    else 2 * Backoff(refusals - 1)
  }

  /** Doubled each time from half a second, at ten seconds from the fifth refusal on. */
  lemma {:induction false} BackoffIs(k: nat)
    ensures k < 5 ==> Backoff(k) == [500, 1000, 2000, 4000, 8000][k]
    ensures k >= 5 ==> Backoff(k) == RECONNECT_MAX_MS
  {
    if k > 0 {
      BackoffIs(k - 1);
    }
  }

  class Client {
    const buf: array<byte>
    var bufLen: nat
    var fd: bool
    var connected: bool
    var lastConnectAttempt: nat
    var reconnectInterval: nat
    /** Since the last connection: every byte received, and every payload given to the parser. */
    ghost var received: bytes
    ghost var handed: seq<bytes>
    /** Attempts refused since the last connection. */
    ghost var refusals: nat

    /** socket_client_init */
    constructor ()
      ensures Valid() && fresh(buf) && !connected && lastConnectAttempt == 0 && refusals == 0
    {
      buf := new byte[RECV_BUF_SIZE];
      bufLen, fd, connected := 0, false, false;
      lastConnectAttempt, reconnectInterval := 0, RECONNECT_MIN_MS;
      received, handed, refusals := [], [], 0;
    }

    /**
     What holds between polls: the buffer is not full, and what was received is what was handed
     to the parser, framed, and what is still buffered.
     */
    ghost predicate Valid()
      reads this, buf
    {
      && buf.Length == RECV_BUF_SIZE && bufLen < RECV_BUF_SIZE
      && (connected ==> fd && Conserved())
      && (!connected ==> bufLen == 0)
      && reconnectInterval == Backoff(refusals)
    }

    ghost function Buffered(): (b: bytes)
      reads this, buf
      requires bufLen <= buf.Length
      ensures |b| == bufLen
    {
      buf[..bufLen]
    }

    ghost predicate Conserved()
      reads this, buf
      requires bufLen <= buf.Length
    {
      Sendable(handed) && received == Frames(handed) + Buffered()
    }

    /** What became of an attempt, last and k being when the one before was made and how many were refused. */
    ghost predicate AttemptMade(now: nat, attempt: Attempt, last: nat, k: nat)
      reads this
    {
      var due := now - last >= Backoff(k);
      && connected == (due && attempt.Accepted?)
      && lastConnectAttempt == (if due then now else last)
      && refusals == (if !due then k else if attempt.Accepted? then 0 else if attempt.Refused? then k + 1 else k)
    }

    /** try_connect: an attempt is made only when the interval since the last one has passed. */
    method TryConnect(now: nat, attempt: Attempt) returns (ok: bool)
      requires Valid() && !connected && now >= lastConnectAttempt
      modifies this
      ensures Valid()
      ensures ok == connected && AttemptMade(now, attempt, old(lastConnectAttempt), old(refusals))
      ensures connected ==> received == [] && handed == [] && bufLen == 0
    {
      if now - lastConnectAttempt < reconnectInterval {
        return false;
      }
      lastConnectAttempt := now;
      if fd {
        fd := false;
      }
      if attempt.NoSocket? {
        return false;
      }
      fd := true;
      if attempt.StaysBlocking? {
        fd := false;
        return false;
      }
      if attempt.Accepted? {
        connected := true;
        reconnectInterval := RECONNECT_MIN_MS;
        bufLen := 0;
        received, handed, refusals := [], [], 0;
        return true;
      }
      fd := false;
      reconnectInterval := reconnectInterval * 2;
      if reconnectInterval > RECONNECT_MAX_MS {
        reconnectInterval := RECONNECT_MAX_MS;
      }
      refusals := refusals + 1;
      return false;
    }

    method HandleDisconnect()
      modifies this`fd, this`connected, this`bufLen
      ensures !fd && !connected && bufLen == 0
    {
      if fd {
        fd := false;
      }
      connected := false;
      bufLen := 0;
    }

    /** The size that recv is asked for. */
    function Request(): nat
      reads this
      requires bufLen < RECV_BUF_SIZE
    {
      RECV_BUF_SIZE - bufLen
    }

    /** recv: the bytes go behind those already buffered. */
    method Receive(data: bytes)
      requires bufLen + |data| <= buf.Length && connected && Conserved()
      modifies this`bufLen, this`received, buf
      ensures bufLen == old(bufLen) + |data| && Buffered() == old(Buffered()) + data
      ensures received == old(received) + data && Conserved()
    {
      forall i | 0 <= i < |data| {
        buf[bufLen + i] := data[i];
      }
      bufLen := bufLen + |data|;
      received := received + data;
      ConcatAssociates(Frames(handed), old(Buffered()), data);
    }

    /** memmove: the bytes behind the frame go to the front. */
    method Consume(consumed: nat, ghost payload: bytes)
      requires bufLen <= buf.Length && HoldsFrame(Buffered()) && payload == FirstPayload(Buffered())
      requires consumed == 4 + Le32(Buffered()) && Conserved()
      modifies this`bufLen, this`handed, buf
      ensures bufLen <= buf.Length && Buffered() == BehindFrame(old(Buffered())) && bufLen < old(bufLen)
      ensures handed == old(handed) + [payload] && Conserved()
    {
      hide Frames, Le32;
      OneMoreHanded(handed, Buffered());
      Shift(consumed);
      handed := handed + [payload];
    }

    method FrameLength() returns (msgLen: nat)
      requires 4 <= bufLen <= buf.Length
      ensures msgLen == Le32(Buffered())
    {
      Le32OfFront(Buffered());
      assert Buffered()[..4] == buf[..4];
      msgLen := Le32(buf[..4]);
    }

    method Shift(consumed: nat)
      requires consumed <= bufLen <= buf.Length
      modifies this`bufLen, buf
      ensures bufLen == old(bufLen) - consumed && Buffered() == old(Buffered())[consumed..]
    {
      forall i | 0 <= i < bufLen - consumed {
        buf[i] := buf[consumed + i];
      }
      bufLen := bufLen - consumed;
    }

    /** The extraction loop; the result is the payload of the frame it returns. */
    method ExtractFrame(accepts: bytes -> bool) returns (frame: Option<bytes>)
      requires connected && fd && bufLen <= buf.Length == RECV_BUF_SIZE && Conserved()
      requires reconnectInterval == Backoff(refusals)
      modifies this`bufLen, this`handed, this`fd, this`connected, buf
      ensures Valid()
      ensures var x := Extract(old(Buffered()), accepts);
              && handed == old(handed) + x.payloads
              && connected == !x.Oversized?
              && (connected ==> Buffered() == x.rest)
              && frame == if x.Delivered? then Some(handed[|handed| - 1]) else None
    {
      hide Frames, Le32, Extract, FirstPayload, BehindFrame, Backoff;
      ghost var b := Buffered();
      ghost var done: seq<bytes> := [];
      NothingHanded(b, accepts);
      while bufLen >= 4
        invariant connected && fd && bufLen <= buf.Length && Conserved()
        invariant Sendable(done) && handed == old(handed) + done
        invariant Extract(b, accepts) == AfterPayloads(done, Extract(Buffered(), accepts))
        decreases bufLen
      {
        ExtractCases(Buffered(), accepts);
        var msgLen := FrameLength();
        if msgLen > RECV_BUF_SIZE - 4 {
          HandleDisconnect();
          return None;
        }
        if bufLen < 4 + msgLen {
          break;
        }
        var payload := buf[4..4 + msgLen];
        PayloadIs(Buffered());
        assert payload == Buffered()[4..4 + msgLen];
        var ok := accepts(payload);
        AfterPayloadsTwice(done, payload, Extract(BehindFrame(Buffered()), accepts));
        Consume(4 + msgLen, payload);
        done := done + [payload];
        if ok {
          return Some(payload);
        }
      }
      ExtractCases(Buffered(), accepts);
      return None;
    }

    /**
     socket_client_poll.  `event` is what recv returns for the request made, `attempt` and `now`
     what a connection attempt meets, `accepts` the verdicts of the payload parser.
     */
    method Poll(event: Received, now: nat, attempt: Attempt, accepts: bytes -> bool) returns (frame: Option<bytes>)
      requires Valid() && now >= lastConnectAttempt
      requires event.Data? ==> 0 < |event.bytes| <= Request()
      modifies this, buf
      ensures Valid() && lastConnectAttempt <= now
      ensures !old(connected) ==>
                && frame == None && AttemptMade(now, attempt, old(lastConnectAttempt), old(refusals))
                && (connected ==> received == [] && handed == [] && Buffered() == [])
      ensures old(connected) ==> lastConnectAttempt == old(lastConnectAttempt) && refusals == old(refusals)
      ensures old(connected) && (event.PeerClosed? || event.RecvError?) ==>
                frame == None && !connected && handed == old(handed)
      ensures old(connected) && (event.Data? || event.WouldBlock?) ==>
                var data := if event.Data? then event.bytes else [];
                var x := Extract(old(Buffered()) + data, accepts);
                && received == old(received) + data
                && handed == old(handed) + x.payloads
                && connected == !x.Oversized?
                && (connected ==> Buffered() == x.rest)
                && frame == if x.Delivered? then Some(handed[|handed| - 1]) else None
    {
      if !connected {
        var _ := TryConnect(now, attempt);
        return None;
      }
      hide Extract, Frames;
      match event {
        case Data(bytes) =>
          Receive(bytes);
        case PeerClosed =>
          HandleDisconnect();
          return None;
        case RecvError =>
          HandleDisconnect();
          return None;
        case WouldBlock =>
          assert Buffered() + [] == Buffered() && received + [] == received;
      }
      frame := ExtractFrame(accepts);
    }
  }

  lemma NothingHanded(b: bytes, accepts: bytes -> bool)
    ensures Extract(b, accepts) == AfterPayloads([], Extract(b, accepts))
  {
    var x := Extract(b, accepts);
    assert [] + x.payloads == x.payloads;
  }

  // ----- whole runs

  /** The payloads the parser accepts, in order. */
  function AcceptedOnly(ps: seq<bytes>, accepts: bytes -> bool): seq<bytes> {
    if ps == [] then []
    else (if accepts(ps[0]) then [ps[0]] else []) + AcceptedOnly(ps[1..], accepts)
  }

  lemma {:induction false} AcceptedOfBoth(a: seq<bytes>, b: seq<bytes>, accepts: bytes -> bool)
    ensures AcceptedOnly(a + b, accepts) == AcceptedOnly(a, accepts) + AcceptedOnly(b, accepts)
  {
    if a == [] {
      assert a + b == b;
    } else {
      assert (a + b)[0] == a[0] && (a + b)[1..] == a[1..] + b;
      AcceptedOfBoth(a[1..], b, accepts);
    }
  }

  lemma {:induction false} NoneAccepted(ps: seq<bytes>, accepts: bytes -> bool)
    requires forall i :: 0 <= i < |ps| ==> !accepts(ps[i])
    ensures AcceptedOnly(ps, accepts) == []
  {
    if ps != [] {
      NoneAccepted(ps[1..], accepts);
    }
  }

  /** Of the payloads one poll hands over, the frame it returns is the accepted one. */
  lemma AcceptedOfPoll(b: bytes, accepts: bytes -> bool)
    ensures var x := Extract(b, accepts);
            AcceptedOnly(x.payloads, accepts) == if x.Delivered? then [x.payloads[|x.payloads| - 1]] else []
  {
    var x := Extract(b, accepts);
    OnlyTheLastIsAccepted(b, accepts);
    if x.Delivered? {
      var n := |x.payloads| - 1;
      assert x.payloads == x.payloads[..n] + [x.payloads[n]];
      AcceptedOfBoth(x.payloads[..n], [x.payloads[n]], accepts);
      NoneAccepted(x.payloads[..n], accepts);
      assert AcceptedOnly([x.payloads[n]], accepts) == [x.payloads[n]] + AcceptedOnly([], accepts);
    } else {
      NoneAccepted(x.payloads, accepts);
    }
  }

  /** A connection that has received the first n bytes of a stream, and what has come of them. */
  ghost predicate Follows(c: Client, sent: seq<bytes>, n: nat, frames: seq<bytes>, accepts: bytes -> bool)
    requires Sendable(sent)
    reads c, c.buf
  {
    && c.Valid() && c.connected && n <= |Frames(sent)| && c.received == Frames(sent)[..n]
    && frames == AcceptedOnly(c.handed, accepts)
  }

  /** The payloads handed over are the first of those sent; only whole frames are missing. */
  lemma FollowingHandsPrefix(c: Client, sent: seq<bytes>, n: nat, frames: seq<bytes>, accepts: bytes -> bool)
    requires Sendable(sent) && Follows(c, sent, n, frames, accepts)
    ensures c.handed <= sent && c.Buffered() <= Frames(sent[|c.handed|..])
    ensures Frames(sent)[..n] == Frames(c.handed) + c.Buffered()
    ensures n == |Frames(sent)| && !HoldsFrame(c.Buffered()) ==> c.handed == sent
  {
    HandedIsPrefix(c.handed, c.Buffered(), sent);
    var left := sent[|c.handed|..];
    if n == |Frames(sent)| && left != [] {
      assert Frames(c.handed) + c.Buffered() == Frames(c.handed) + Frames(left);
      assert c.Buffered() == Frames(left);
      FrameReads(left[0], Frames(left[1..]));
    }
  }

  /** One poll that finds the next k bytes of the stream, or none. */
  method PollNext(c: Client, ghost sent: seq<bytes>, stream: bytes, n: nat, k: nat, ghost frames: seq<bytes>,
            accepts: bytes -> bool)
    returns (frame: Option<bytes>)
    requires Sendable(sent) && stream == Frames(sent) && Follows(c, sent, n, frames, accepts)
    requires n + k <= |stream| && k <= c.Request()
    modifies c, c.buf
    ensures Follows(c, sent, n + k, frames + (if frame.Some? then [frame.value] else []), accepts)
    ensures frame.None? ==> !HoldsFrame(c.Buffered())
    ensures frame.Some? ==> c.bufLen < old(c.bufLen) + k
  {
    hide Frames, Extract, AcceptedOnly;
    FollowingHandsPrefix(c, sent, n, frames, accepts);
    ghost var data := stream[n..n + k];
    ghost var b := c.Buffered() + data;
    ghost var left := sent[|c.handed|..];
    assert sent == c.handed + left;
    NextBytesFollow(c.handed, left, c.Buffered(), n, k);
    NeverOversized(b, left, accepts);
    ExtractConserves(b, accepts);
    AcceptedOfPoll(b, accepts);
    AcceptedOfBoth(c.handed, Extract(b, accepts).payloads, accepts);
    if k == 0 {
      assert b == c.Buffered() + [];
      frame := c.Poll(WouldBlock, c.lastConnectAttempt, NoSocket, accepts);
    } else {
      frame := c.Poll(Data(stream[n..n + k]), c.lastConnectAttempt, NoSocket, accepts);
    }
    assert stream[..n] + data == stream[..n + k];
    assert frames + [] == frames;
  }

  /** What is buffered and the bytes that come next are the front of the frames not handed over yet. */
  lemma NextBytesFollow(handed: seq<bytes>, left: seq<bytes>, buffered: bytes, n: nat, k: nat)
    requires Sendable(handed) && Sendable(left) && Sendable(handed + left) && n + k <= |Frames(handed + left)|
    requires Frames(handed + left)[..n] == Frames(handed) + buffered
    ensures buffered + Frames(handed + left)[n..n + k] <= Frames(left)
  {
    hide *;
    FramesOfBoth(handed, left);
    FrontBehind(Frames(handed), buffered, Frames(left), n, k);
  }

  lemma FrontBehind(a: bytes, b: bytes, left: bytes, n: nat, k: nat)
    requires n + k <= |a + left| && (a + left)[..n] == a + b
    ensures b + (a + left)[n..n + k] <= left
  {
    var s := a + left;
    assert n == |a| + |b|;
    assert s[|a|..] == left && s[n..] == left[|b|..];
    assert b == (a + b)[|a|..] == s[..n][|a|..] == left[..|b|];
    assert s[n..n + k] == left[|b|..][..k];
  }

  /**
   A run of polls on one connection.  The i-th poll finds sizes[i] more bytes of the stream, or
   as many as there are and as the request allows.
   */
  method RunPolls(c: Client, ghost sent: seq<bytes>, stream: bytes, sizes: seq<nat>, accepts: bytes -> bool)
    returns (frames: seq<bytes>, n: nat)
    requires Sendable(sent) && stream == Frames(sent)
    requires c.Valid() && c.connected && c.received == [] && c.handed == []
    modifies c, c.buf
    ensures c.Valid() && c.connected && n <= |stream|
    ensures c.handed <= sent && stream[..n] == Frames(c.handed) + c.Buffered()
    ensures frames == AcceptedOnly(c.handed, accepts)
    ensures n == |stream| && !HoldsFrame(c.Buffered()) ==> c.handed == sent
  {
    frames, n := [], 0;
    for i := 0 to |sizes|
      invariant Follows(c, sent, n, frames, accepts)
    {
      var k := sizes[i];
      if k > c.Request() {
        k := c.Request();
      }
      if k > |stream| - n {
        k := |stream| - n;
      }
      var frame := PollNext(c, sent, stream, n, k, frames, accepts);
      n := n + k;
      if frame.Some? {
        frames := frames + [frame.value];
      } else {
        assert frames + [] == frames;
      }
    }
    FollowingHandsPrefix(c, sent, n, frames, accepts);
  }

  /** Once the whole stream has arrived, polling until nothing is returned hands over every payload. */
  method Drain(c: Client, ghost sent: seq<bytes>, stream: bytes, delivered: seq<bytes>, accepts: bytes -> bool)
    returns (frames: seq<bytes>)
    requires Sendable(sent) && stream == Frames(sent) && Follows(c, sent, |stream|, delivered, accepts)
    modifies c, c.buf
    ensures c.handed == sent && frames == AcceptedOnly(sent, accepts)
  {
    frames := delivered;
    while true
      invariant Follows(c, sent, |stream|, frames, accepts)
      decreases c.bufLen
    {
      var frame := PollNext(c, sent, stream, |stream|, 0, frames, accepts);
      if frame.None? {
        assert frames + [] == frames;
        break;
      }
      frames := frames + [frame.value];
    }
    FollowingHandsPrefix(c, sent, |stream|, frames, accepts);
  }

  /** The request is never empty, so a result of zero bytes only says that the peer has closed. */
  lemma RequestIsPositive(c: Client)
    requires c.Valid()
    ensures 0 < c.Request() == 8192 - c.bufLen && c.buf.Length == 8192
    ensures c.connected ==> |c.received| < |Frames(c.handed)| + RECV_BUF_SIZE
  {}
}
