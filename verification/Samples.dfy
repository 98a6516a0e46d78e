/** What a context does with bytes written out: the closing handshake and pings, in numbers. */
module Samples {
  import opened Bytes
  import opened Headers
  import opened Stream
  import opened Protocol
  import opened SendModel
  import opened RecvModel
  import opened Event
  import opened Chunking
  import opened OneShot
  import opened Numbers
  import EndToEnd
  import FrameIn
  import Utf8

  /** The frame in question came in one piece. */
  predicate CameWhole(stop: Stop) {
    stop.Refused? || stop.CloseTaken? || stop.CloseUnanswered? ==> |stop.pieces| <= 1
  }

  /** A context that has seen to all its input, or stopped. */
  ghost predicate Settled(b: EventContext)
    reads b, b.frameIn, b.frameIn.ibuf, b.frameIn.pipe
  {
    b.ValidRecv() && (Waiting(b) || !b.stop.Running?) && b.frameIn.pipe.taken <= |b.frameIn.pipe.bytes|
  }

  /** The record of a Close: received if and only if one was met, and without one the status stays 1006. */
  lemma RecordOfClose(b: EventContext)
    requires b.ValidRecv()
    ensures b.closeReceived <==> b.stop.CloseTaken? || b.stop.CloseUnanswered?
    ensures !b.closeReceived ==> b.statusRecv == 1006
    ensures b.closeReceived ==> b.statusRecv == SentStatus(b.stop.payload)
  {
    hide History, ParseStream, RepliesOk, Mirrors, TailFine, CloseLast, StopOk, FrameIn.FrameReceiver.Valid;
    hide EventContext.ChunksFine, Pieces, SentStatus, CloseChecked;
  }

  /** The same for a Close sent. */
  lemma RecordOfSentClose(a: EventContext)
    requires a.ValidSend() && !a.broken
    ensures a.closeSent <==> LastIsClose(a.frameOut.done)
    ensures !a.closeSent ==> a.statusSent == 1006
    ensures a.closeSent ==>
      var p := a.frameOut.done[|a.frameOut.done| - 1].payload;
      a.statusSent == if |p| >= 2 && (p[0] != 0 || p[1] != 0) then p[0] as int * 256 + p[1] else 1005
  {
    hide Inv, SentStatus;
    if a.closeSent {
      RecordedStatus(a.frameOut.done[|a.frameOut.done| - 1].payload);
    }
  }

  /**
   A complete Close with an acceptable header and a well-formed reason, in one piece: with a status that may be sent it
   is met, and recorded with this status; with any other one it is refused with 1002, and nothing is recorded.
   */
  lemma CloseDecides(b: EventContext, h: Header, payload: seq<byte>)
    requires Settled(b) && CameWhole(b.stop)
    requires Receive(b.cfg, b.frameIn.Fed()).ending == AtClose(h, payload) && |payload| == h.len >= 2
    requires Utf8.WellFormed(payload[2..])
    ensures var status := payload[0] as int * 256 + payload[1];
      if Sendable(status)
        then b.closeReceived && b.statusRecv == status
        else !b.closeReceived && b.statusRecv == 1006 && b.stop.Refused? && b.stop.verdict == Refuse(1002)
  {
    hide EventContext.ValidRecv, Waiting, Receive, Utf8.WellFormed, Utf8.Viable, TextPart, StatusOf, SentStatus;
    EndToEnd.ReceivedInOneShot(b);
    RecordOfClose(b);
    StatusNumber(payload);
    RecordedStatus(payload);
    ReasonIsFine(payload, if b.stop.Refused? then b.stop.got else payload);
  }

  /** No beginning of a well-formed reason is beyond repair. */
  lemma ReasonIsFine(payload: seq<byte>, part: seq<byte>)
    requires |payload| >= 2 && Utf8.WellFormed(payload[2..])
    ensures part <= payload ==> !HopelessText(TextPart(8, part), |part| == |payload|)
  {
    hide Utf8.WellFormed, Utf8.Viable;
    if part <= payload {
      WellFormedIsViable(payload[2..]);
      ViablePrefix(TextPart(8, part), payload[2..]);
      if |part| == |payload| {
        assert part == payload;
      }
    }
  }

  // -- Bytes written out -------------------------------------------------

  /** The one pass over one short unfragmented frame, masked or not as the side it comes from demands. */
  lemma OneFrame(opcode: nat, key: Option<Key>, payload: seq<byte>)
    requires opcode < 16 && |payload| <= 125
    ensures ParseStream([0x80 + opcode, (if key.Some? then 0x80 else 0) + |payload|] + KeyBytes(key)
                        + Mask(key, payload, 0)) ==
            Parse([Received(Header(true, 0, opcode, key, |payload|), payload)], InHeader([]))
  {
    hide ParseStream, Mask;
    ShortFrame(true, opcode, key, payload);
    ReadAsHeaderSays(Frame(Header(true, 0, opcode, key, |payload|), key, payload));
    MaskCancels(key, payload, 0);
  }

  lemma PingIsGood(cfg: Config, key: Option<Key>, payload: seq<byte>)
    requires |payload| <= 125 <= cfg.maxLength && key.Some? == cfg.server
    ensures Good(cfg, [], Received(Header(true, 0, 9, key, |payload|), payload))
  {
    hide Utf8.WellFormed, Utf8.Viable;
    NoText();
  }

  lemma PingTaken(cfg: Config, bytes: seq<byte>, key: Option<Key>, payload: seq<byte>)
    requires |payload| <= 125 <= cfg.maxLength && key.Some? == cfg.server
    requires ParseStream(bytes) == Parse([Received(Header(true, 0, 9, key, |payload|), payload)], InHeader([]))
    ensures var f := Received(Header(true, 0, 9, key, |payload|), payload);
      Assemble([f]).out == [Msg(9, payload)] && Assemble([f]).legal
      && Receive(cfg, bytes) == Outcome([f], [Delivery(9, payload, 0)], More)
  {
    hide ParseStream, JudgeHeader, JudgeContent;
    var f := Received(Header(true, 0, 9, key, |payload|), payload);
    assert [f][..0] == [] && [f][..1] == [f];
    PingIsGood(cfg, key, payload);
    hide Good;
    TakenIs(cfg, [f], 0, 1);
    assert Assemble([f]) == Feed(Assemble([]), f);
    DeliveriesSnoc(cfg.buffering, [], Msg(9, payload));
    assert [] + [Msg(9, payload)] == [Msg(9, payload)];
    assert Deliveries(cfg.buffering, []) == [];
  }

  lemma NoText()
    ensures Utf8.WellFormed([]) && Utf8.Viable([])
  {
    assert Utf8.WellFormed([]);
    WellFormedIsViable([]);
  }

  /** 0x89 and a payload: it is delivered as a ping, and answered with opcode 10 while something may be queued. */
  lemma PingBytes(b: EventContext, key: Option<Key>, payload: seq<byte>)
    requires Settled(b) && |payload| <= 125 <= b.cfg.maxLength && key.Some? == b.cfg.server
    requires b.frameIn.Fed() ==
      [0x89, (if key.Some? then 0x80 else 0) + |payload|] + KeyBytes(key) + Mask(key, payload, 0)
    ensures b.delivered == [Delivery(9, payload, 0)]
    ensures b.IsQueueable() ==> Replies(b.hist.log) == [Msg(10, payload)]
  {
    hide EventContext.ValidRecv, Waiting, Receive, Mask, ParseStream, KeyBytes, Pings, PongMsgs;
    OneFrame(9, key, payload);
    PingTaken(b.cfg, b.frameIn.Fed(), key, payload);
    EndToEnd.ReceivedInOneShot(b);
    PingsSnoc([], Msg(9, payload));
    assert [] + [Msg(9, payload)] == [Msg(9, payload)];
    PongMsgsSnoc([], payload);
    NoPings();
    PongsQueued(b);
    if !b.stop.Running? {
      EndToEnd.NotIdle(b);
    }
    assert PongMsgs([] + [payload]) == [Msg(10, payload)];
    assert [] + [payload] == [payload];
  }

  lemma NoPings()
    ensures Pings([]) == [] && PongMsgs([]) == []
  {
  }

  lemma PongsQueued(b: EventContext)
    requires b.ValidRecv()
    ensures b.IsQueueable() && (b.stop.Running? || b.stop.Failed?) ==>
      Replies(b.hist.log) == PongMsgs(Pings(Assemble(b.processed).out))
  {
    hide Assemble, FineFrames, Deliveries, Pings, PongMsgs, Replies, ParseStream, Mirrors, TailFine, CloseLast;
    hide FrameIn.FrameReceiver.Valid, EventContext.ChunksFine, StopOk, CloseChecked, NextIn;
  }

  /** What goes out for it: 0x8a and the payload. */
  lemma PongBytes(key: Option<Key>, payload: seq<byte>)
    requires |payload| <= 125
    ensures OnWire(true, 10, key, payload) ==
      [0x8a, (if key.Some? then 0x80 else 0) + |payload|] + KeyBytes(key) + Mask(key, payload, 0)
  {
    ShortFrame(true, 10, key, payload);
  }

  lemma CloseAhead(cfg: Config, bytes: seq<byte>, key: Option<Key>, payload: seq<byte>)
    requires |payload| <= 125 <= cfg.maxLength && key.Some? == cfg.server
    requires ParseStream(bytes) == Parse([Received(Header(true, 0, 8, key, |payload|), payload)], InHeader([]))
    ensures Receive(cfg, bytes).ending == AtClose(Header(true, 0, 8, key, |payload|), payload)
  {
    hide ParseStream, Utf8.WellFormed, Utf8.Viable;
    var f := Received(Header(true, 0, 8, key, |payload|), payload);
    assert [f][..0] == [];
    TakenIs(cfg, [f], 0, 0);
  }

  function ClosingPayload(status: nat, reason: seq<byte>): seq<byte>
    requires status < 65536
  {
    [status / 256, status % 256] + reason
  }

  /**
   0x88, a status and a reason, in one piece: the statuses that may be sent are recorded, the others are refused with
   1002; 4000, an application's own, is one of the former.
   */
  lemma CloseBytes(b: EventContext, key: Option<Key>, status: nat, reason: seq<byte>)
    requires Settled(b) && CameWhole(b.stop) && 125 <= b.cfg.maxLength && key.Some? == b.cfg.server
    requires status < 65536 && |reason| <= 123 && Utf8.WellFormed(reason)
    requires var payload := ClosingPayload(status, reason);
      b.frameIn.Fed() == [0x88, (if key.Some? then 0x80 else 0) + |payload|] + KeyBytes(key) + Mask(key, payload, 0)
    ensures if Sendable(status) then b.closeReceived && b.statusRecv == status
            else !b.closeReceived && b.statusRecv == 1006 && b.stop.Refused? && b.stop.verdict == Refuse(1002)
  {
    hide EventContext.ValidRecv, Waiting, Receive, Mask, ParseStream, KeyBytes, Sendable, Utf8.WellFormed;
    var payload := ClosingPayload(status, reason);
    OneFrame(8, key, payload);
    CloseAhead(b.cfg, b.frameIn.Fed(), key, payload);
    assert payload[2..] == reason;
    CloseDecides(b, Header(true, 0, 8, key, |payload|), payload);
  }
}
