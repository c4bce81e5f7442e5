/** Length-prefixed frames: four bytes of length, little-endian, and the payload. */
module Framing {
  import opened Bytes

  const RECV_BUF_SIZE: nat := 8192
  const MAX_PAYLOAD: nat := RECV_BUF_SIZE - 4

  function Le32(b: bytes): (n: nat)
    requires |b| >= 4
    ensures n < 0x1_0000_0000
  {
    var b0: int, b1: int, b2: int, b3: int := b[0], b[1], b[2], b[3];
    b0 + 0x100 * b1 + 0x1_0000 * b2 + 0x100_0000 * b3
  }

  lemma Le32OfFront(b: bytes)
    requires |b| >= 4
    ensures Le32(b[..4]) == Le32(b)
  {}

  /** struct.pack("<I", len(payload)) */
  function Packed(n: nat): (b: bytes)
    requires n < 0x1_0000_0000
    ensures |b| == 4
  {
    [n % 0x100, n / 0x100 % 0x100, n / 0x1_0000 % 0x100, n / 0x100_0000]
  }

  lemma PackedReadsBack(n: nat, rest: bytes)
    requires n < 0x1_0000_0000
    ensures Le32(Packed(n) + rest) == n
  {
    var b := Packed(n) + rest;
    assert b[0] == n % 0x100 && b[1] == n / 0x100 % 0x100 && b[2] == n / 0x1_0000 % 0x100 && b[3] == n / 0x100_0000;
    assert n / 0x100 == n / 0x1_0000 * 0x100 + n / 0x100 % 0x100;
    assert n / 0x1_0000 == n / 0x100_0000 * 0x100 + n / 0x1_0000 % 0x100;
  }

  lemma Le32Packs(b: bytes)
    requires |b| >= 4
    ensures Packed(Le32(b)) == b[..4]
  {
    var n := Le32(b);
    var b0: int, b1: int, b2: int, b3: int := b[0], b[1], b[2], b[3];
    assert n == (b1 + 0x100 * (b2 + 0x100 * b3)) * 0x100 + b0;
    assert n % 0x100 == b0 && n / 0x100 == b1 + 0x100 * (b2 + 0x100 * b3);
    assert n / 0x1_0000 == n / 0x100 / 0x100 == b2 + 0x100 * b3;
    assert n / 0x100_0000 == n / 0x1_0000 / 0x100 == b3;
  }

  predicate Sendable(ps: seq<bytes>) {
    forall i :: 0 <= i < |ps| ==> |ps[i]| <= MAX_PAYLOAD
  }

  function Frame(p: bytes): bytes
    requires |p| <= MAX_PAYLOAD
  {
    Packed(|p|) + p
  }

  /** The stream that carries the payloads. */
  function Frames(ps: seq<bytes>): bytes
    requires Sendable(ps)
  {
    if ps == [] then [] else Frame(ps[0]) + Frames(ps[1..])
  }

  lemma {:induction false} FramesOfBoth(a: seq<bytes>, b: seq<bytes>)
    requires Sendable(a) && Sendable(b)
    ensures Sendable(a + b) && Frames(a + b) == Frames(a) + Frames(b)
    decreases |a|
  {
    if a == [] {
      assert a + b == b;
    } else {
      assert (a + b)[0] == a[0] && (a + b)[1..] == a[1..] + b;
      FramesOfBoth(a[1..], b);
      ConcatAssociates(Frame(a[0]), Frames(a[1..]), Frames(b));
    }
  }

  /** A buffer begins with a whole frame. */
  predicate HoldsFrame(b: bytes) {
    |b| >= 4 && Le32(b) <= MAX_PAYLOAD && |b| >= 4 + Le32(b)
  }

  function FirstPayload(b: bytes): (p: bytes)
    requires HoldsFrame(b)
    ensures |p| <= MAX_PAYLOAD
  {
    b[4..4 + Le32(b)]
  }

  function BehindFrame(b: bytes): (rest: bytes)
    requires HoldsFrame(b)
    ensures |rest| + 4 <= |b|
  {
    b[4 + Le32(b)..]
  }

  lemma FrameSplits(b: bytes)
    requires HoldsFrame(b)
    ensures b == Frame(FirstPayload(b)) + BehindFrame(b)
  {
    Le32Packs(b);
  }

  lemma FrameReads(p: bytes, rest: bytes)
    requires |p| <= MAX_PAYLOAD
    ensures var b := Frame(p) + rest;
            HoldsFrame(b) && FirstPayload(b) == p && BehindFrame(b) == rest
  {
    PackedReadsBack(|p|, p + rest);
    ConcatAssociates(Packed(|p|), p, rest);
  }

  // ----- the extraction loop

  /**
   What the loop does to a buffer: `payloads` are handed to the parser in turn; it goes on until
   one is accepted, no whole frame is left, or a length is too large.
   */
  datatype Extraction =
    | Waiting(payloads: seq<bytes>, rest: bytes)
    | Delivered(payloads: seq<bytes>, rest: bytes)
    | Oversized(payloads: seq<bytes>)

  function Extract(b: bytes, accepts: bytes -> bool): (x: Extraction)
    ensures Sendable(x.payloads)
    ensures x.Delivered? ==> x.payloads != []
    decreases |b|
  {
    if |b| < 4 then Waiting([], b)
    else if Le32(b) > MAX_PAYLOAD then Oversized([])
    else if |b| < 4 + Le32(b) then Waiting([], b)
    else if accepts(FirstPayload(b)) then Delivered([FirstPayload(b)], BehindFrame(b))
    else AfterPayloads([FirstPayload(b)], Extract(BehindFrame(b), accepts))
  }

  function AfterPayloads(ps: seq<bytes>, x: Extraction): (r: Extraction)
    requires Sendable(ps) && Sendable(x.payloads)
    ensures Sendable(r.payloads)
    ensures r.payloads == ps + x.payloads
  {
    match x
    case Waiting(qs, rest) => Waiting(ps + qs, rest)
    case Delivered(qs, rest) => Delivered(ps + qs, rest)
    case Oversized(qs) => Oversized(ps + qs)
  }

  /** A frame is too large from 8189 bytes of payload on. */
  lemma TooLargeIff(b: bytes, accepts: bytes -> bool)
    requires |b| >= 4
    ensures var b0: int, b1: int, b2: int, b3: int := b[0], b[1], b[2], b[3];
            Extract(b, accepts) == Oversized([]) <==> b0 + 256 * (b1 + 256 * (b2 + 256 * b3)) > 8188
  {
    if HoldsFrame(b) {
      assert Extract(b, accepts).payloads != [];
    }
  }

  lemma PayloadIs(b: bytes)
    requires HoldsFrame(b)
    ensures FirstPayload(b) == b[4..4 + Le32(b)]
  {}

  lemma ExtractCases(b: bytes, accepts: bytes -> bool)
    ensures |b| < 4 ==> Extract(b, accepts) == Waiting([], b)
    ensures |b| >= 4 && Le32(b) > MAX_PAYLOAD ==> Extract(b, accepts) == Oversized([])
    ensures |b| >= 4 && Le32(b) <= MAX_PAYLOAD && |b| < 4 + Le32(b) ==> Extract(b, accepts) == Waiting([], b)
    ensures HoldsFrame(b) ==>
              Extract(b, accepts) ==
              if accepts(FirstPayload(b)) then Delivered([FirstPayload(b)], BehindFrame(b))
              else AfterPayloads([FirstPayload(b)], Extract(BehindFrame(b), accepts))
  {}

  /** One more payload handed over keeps the account of the bytes. */
  lemma OneMoreHanded(handed: seq<bytes>, b: bytes)
    requires Sendable(handed) && HoldsFrame(b)
    ensures Sendable(handed + [FirstPayload(b)])
    ensures Frames(handed + [FirstPayload(b)]) + BehindFrame(b) == Frames(handed) + b
  {
    var p := FirstPayload(b);
    FrameSplits(b);
    FramesOfBoth(handed, [p]);
    assert Frames([p]) == Frame(p) + [] == Frame(p);
    ConcatAssociates(Frames(handed), Frame(p), BehindFrame(b));
  }

  lemma AfterPayloadsTwice(ps: seq<bytes>, p: bytes, x: Extraction)
    requires Sendable(ps) && |p| <= MAX_PAYLOAD && Sendable(x.payloads)
    ensures AfterPayloads(ps, AfterPayloads([p], x)) == AfterPayloads(ps + [p], x)
  {
    assert ps + ([p] + x.payloads) == ps + [p] + x.payloads;
  }

  /** No byte is lost and none is invented; what is left is less than a full buffer. */
  lemma {:induction false} ExtractConserves(b: bytes, accepts: bytes -> bool)
    ensures var x := Extract(b, accepts);
            && (!x.Oversized? ==> b == Frames(x.payloads) + x.rest)
            && (x.Oversized? ==> Frames(x.payloads) <= b)
            && (x.Waiting? ==> !HoldsFrame(x.rest) && |x.rest| < RECV_BUF_SIZE)
            && (x.Delivered? ==> |x.rest| + 4 <= |b|)
    decreases |b|
  {
    if HoldsFrame(b) {
      var p, rest := FirstPayload(b), BehindFrame(b);
      FrameSplits(b);
      if accepts(p) {
        assert Frames([p]) == Frame(p) + [];
      } else {
        var x := Extract(rest, accepts);
        ExtractConserves(rest, accepts);
        assert ([p] + x.payloads)[1..] == x.payloads;
        if !x.Oversized? {
          ConcatAssociates(Frame(p), Frames(x.payloads), x.rest);
        }
      }
    }
  }

  /** The parser's verdicts: all payloads but the last delivered one were refused. */
  lemma {:induction false} OnlyTheLastIsAccepted(b: bytes, accepts: bytes -> bool)
    ensures var x := Extract(b, accepts);
            var n := if x.Delivered? then |x.payloads| - 1 else |x.payloads|;
            && (forall i :: 0 <= i < n ==> !accepts(x.payloads[i]))
            && (x.Delivered? ==> accepts(x.payloads[n]))
    decreases |b|
  {
    if HoldsFrame(b) && !accepts(FirstPayload(b)) {
      OnlyTheLastIsAccepted(BehindFrame(b), accepts);
    }
  }

  // ----- reading a stream of frames

  /** Whole frames at the front of a stream are the first ones that were sent. */
  lemma {:induction false} HandedIsPrefix(handed: seq<bytes>, rest: bytes, sent: seq<bytes>)
    requires Sendable(handed) && Sendable(sent) && Frames(handed) + rest <= Frames(sent)
    ensures handed <= sent
    ensures var k := |handed|;
            Frames(sent) == Frames(handed) + Frames(sent[k..]) && rest <= Frames(sent[k..])
    decreases |handed|
  {
    if handed == [] {
      assert sent[0..] == sent && Frames(handed) + rest == rest;
    } else {
      var h := handed[0];
      ConcatAssociates(Frame(h), Frames(handed[1..]), rest);
      FirstFrameAgrees(h, Frames(handed[1..]) + rest, sent);
      HandedIsPrefix(handed[1..], rest, sent[1..]);
      assert handed == [h] + handed[1..] && sent == [h] + sent[1..];
      assert sent[|handed|..] == sent[1..][|handed| - 1..];
      ConcatAssociates(Frame(h), Frames(handed[1..]), Frames(sent[|handed|..]));
    }
  }

  lemma FirstFrameAgrees(h: bytes, tail: bytes, sent: seq<bytes>)
    requires |h| <= MAX_PAYLOAD && Sendable(sent) && Frame(h) + tail <= Frames(sent)
    ensures sent != [] && sent[0] == h && tail <= Frames(sent[1..])
  {
    var beyond := Frames(sent)[|Frame(h) + tail|..];
    assert Frames(sent) == (Frame(h) + tail) + beyond == Frame(h) + (tail + beyond);
    assert sent != [];
    FrameReads(h, tail + beyond);
    FrameReads(sent[0], Frames(sent[1..]));
  }

  /** At the front of a stream of sendable payloads no length is too large. */
  lemma NeverOversized(b: bytes, sent: seq<bytes>, accepts: bytes -> bool)
    requires Sendable(sent) && b <= Frames(sent)
    ensures !Extract(b, accepts).Oversized?
    decreases |b|
  {
    if |b| >= 4 {
      assert sent != [];
      FrameReads(sent[0], Frames(sent[1..]));
      var whole := Frames(sent);
      assert b[0] == whole[0] && b[1] == whole[1] && b[2] == whole[2] && b[3] == whole[3];
      assert Le32(b) == Le32(whole) == |sent[0]|;
      if HoldsFrame(b) {
        assert BehindFrame(b) <= BehindFrame(whole) == Frames(sent[1..]);
        NeverOversized(BehindFrame(b), sent[1..], accepts);
      }
    }
  }
}
