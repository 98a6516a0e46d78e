/** The message-level engine: one context with its send half and its receive half. */
module Event {
  import opened Bytes
  import opened Headers
  import opened Stream
  import opened Protocol
  import opened SendModel
  import opened RecvModel
  import opened Transport
  import FrameOut
  import FrameIn
  import Utf8

  const OBUF_SIZE := 4096

  const ERR_INVALID_ARGUMENT := -300
  const ERR_NO_MORE_MSG := -302
  const ERR_WOULDBLOCK := -401

  const NO_STATUS_RCVD := 1005
  const ABNORMAL_CLOSURE := 1006

  class EventContext {
    const cfg: Config
    const frameOut: FrameOut.FrameSender
    const frameIn: FrameIn.FrameReceiver
    const obuf: array<byte>
    var readEnabled: bool
    var writeEnabled: bool
    // the three bits of close_status
    var closeReceived: bool
    var closeQueued: bool
    var closeSent: bool
    var statusRecv: nat
    var statusSent: nat
    var error: int
    // receive half
    var slot0: IMsg
    var slot1: IMsg
    var second: bool  // imsg points to slot 1
    var ipayloadlen: nat
    var ipayloadoff: nat
    // send half
    var sendQueue: seq<OMsg>
    var sendCtrlQueue: seq<OMsg>
    var omsg: Option<OMsg>
    var queuedMsgCount: nat
    var queuedMsgLength: nat
    var obuflimit: nat
    var obufmark: nat
    var opayloadlen: nat
    var opayloadoff: nat
    var starved: bool  // the last read callback had no data at the moment
    // history
    ghost var hist: SendHistory      // what was queued, dropped and read to its end
    ghost var writeShut: bool        // the application shut down writing
    ghost var faulted: bool          // sending failed for good
    ghost var ended: set<nat>        // the messages whose read callback reported the end, with bytes
    ghost var errorSet: int          // the error as it was last set: by a callback, or for the message callback
    ghost var broken: bool           // the send callback claimed more bytes than it was offered
    ghost var maskFailed: bool       // the last call of the printer had no key
    ghost var processed: seq<Frame>  // frames received and processed completely
    ghost var checked: seq<byte>     // of a Close under way: the bytes that went through the UTF-8 automaton
    ghost var pieces: seq<seq<byte>> // the chunks in which the frame under way came
    ghost var delivered: seq<Delivery>
    ghost var pongs: seq<seq<byte>>  // payloads of the PONGs queued in reply
    ghost var stop: Stop
    ghost var readShut: bool         // the application shut down reading
    ghost var sourceFailed: bool     // the last read callback failed

    /** The fragment in the buffer. */
    ghost function Fragment(): seq<byte>
      reads `obuflimit, obuf
      requires obuflimit <= obuf.Length
    {
      obuf[..obuflimit]
    }

    ghost function SView(): SendView
      reads `sendQueue, `sendCtrlQueue, `omsg, `obuflimit, `obufmark, `opayloadlen, `opayloadoff
      reads `writeEnabled, `closeQueued
      reads `queuedMsgCount, `queuedMsgLength, `ended, `hist, frameOut, obuf
      requires obuflimit <= obuf.Length
    {
      SendView(cfg.server, sendQueue, sendCtrlQueue, omsg, Fragment(), obufmark,
               opayloadlen, opayloadoff, writeEnabled, closeQueued, queuedMsgCount, queuedMsgLength,
               frameOut.done, frameOut.cur, ended, hist)
    }

    /** The objects of the send half are in order. */
    ghost predicate SendObjects()
      reads `error, `errorSet, `obuflimit, `obufmark, `broken, `writeEnabled, frameOut, frameOut.oheader
      reads frameOut.pipe`bytes, frameOut.pipe`overran
    {
      && obuf.Length == OBUF_SIZE && obufmark <= obuflimit <= OBUF_SIZE && obuf != frameOut.oheader
      && frameOut.pipe != frameIn.pipe && frameIn.ibuf != obuf && frameIn.ibuf != frameOut.oheader
      && broken == frameOut.pipe.overran && error == errorSet
      && (!broken ==> frameOut.Valid() && frameOut.Unfinished() && (frameOut.omask ==> !cfg.server))
    }

    /** A Close frame that is out is on record with its status. */
    ghost predicate CloseNoted()
      reads `closeSent, `statusSent, frameOut
    {
      LastIsClose(frameOut.done) && closeSent && statusSent == SentStatus(frameOut.done[|frameOut.done| - 1].payload)
    }

    /** Writing is on until the application shuts it down, it fails, or a Close frame is out. */
    ghost predicate Writing()
      reads `writeEnabled, `writeShut, `faulted, `closeSent, `statusSent, frameOut
    {
      && writeEnabled == (!writeShut && !faulted && !LastIsClose(frameOut.done))
      && (if LastIsClose(frameOut.done) then CloseNoted() else NoCloseNoted())
    }

    /** No Close is on record as sent. */
    ghost predicate NoCloseNoted()
      reads `closeSent, `statusSent
    {
      !closeSent && statusSent == ABNORMAL_CLOSURE
    }

    ghost predicate ValidSend()
      reads `sendQueue, `sendCtrlQueue, `omsg, `obuflimit, `obufmark, `opayloadlen, `opayloadoff
      reads `writeEnabled, `closeQueued
      reads `queuedMsgCount, `queuedMsgLength, `ended, `hist, `broken, `error, `errorSet
      reads `writeShut, `faulted, `closeSent, `statusSent
      reads frameOut, frameOut.oheader, frameOut.pipe`bytes, frameOut.pipe`overran, obuf
    {
      SendObjects() && (if broken then !writeEnabled else Inv(SView()) && Writing())
    }

    ghost function RView(): RecvView
      reads `slot0, `slot1, `second, `ipayloadlen, `ipayloadoff
    {
      RecvView(cfg, slot0, slot1, second, ipayloadlen, ipayloadoff)
    }

    /** The frame after those processed has header h and a payload that starts with got. */
    ghost predicate Ahead(h: Header, got: seq<byte>)
      reads `processed, frameIn.pipe
    {
      && frameIn.pipe.taken <= |frameIn.pipe.bytes| && Printable(h)
      && NextIn(ParseStream(frameIn.Fed()), |processed|, h, got) && (got == [] ==> h.len == 0)
    }

    /** A Close that was taken, or came when none could be queued any more, is on record. */
    ghost predicate CloseMet(h: Header, payload: seq<byte>, cut: seq<seq<byte>>)
      reads `closeReceived, `statusRecv
    {
      CloseChecked(h, payload, cut) && |payload| == h.len && closeReceived && statusRecv == SentStatus(payload)
    }

    /** Where the receive half stopped reading, it had a reason. */
    ghost predicate StopJustified()
      reads `closeReceived, `statusRecv, `processed, `stop, `writeEnabled, `closeQueued, frameIn.pipe
    {
      && StopOk(cfg, processed, stop)
      && (stop.Refused? ==> Ahead(stop.h, stop.got))
      && (stop.CloseUnanswered? ==> Ahead(stop.h, stop.payload) && CloseMet(stop.h, stop.payload, stop.pieces))
      && (stop.Failed? ==> stop.error != 0 && stop.error != ERR_WOULDBLOCK)
      && (stop.Running? || (stop.Refused? && stop.verdict == Verdict.OutOfMemory) || !IsQueueable())
      && closeReceived == (stop.CloseTaken? || stop.CloseUnanswered?)
      && (!closeReceived ==> statusRecv == ABNORMAL_CLOSURE)
    }

    /** What was parsed of the input when it ran out or turned out malformed. */
    ghost predicate InputParsed()
      reads `processed, `stop, frameIn.pipe
    {
      && frameIn.pipe.taken <= |frameIn.pipe.bytes|
      && var p := ParseStream(frameIn.Fed());
      && processed <= p.frames
      && (stop.Violated? ==> p == Parse(processed, Violation))
      && (stop.Failed? ==> p.frames == processed && !p.tail.Violation? && TailFine(cfg, processed, p.tail))
    }

    /**
     What has been received, delivered and answered agrees with the sequential reassembler; given are the arguments
     of the message callback, answers the pongs the library has queued.
     */
    ghost predicate Receiving(given: seq<Delivery>, answers: seq<seq<byte>>)
      reads `closeReceived, `statusRecv, `processed, `pongs, `stop, `readShut, `readEnabled
      reads `writeEnabled, `closeQueued, `hist, frameIn.pipe
    {
      && History(cfg, processed, given, pongs, IsQueueable())
      && CloseLast(processed, stop.CloseTaken?)
      && StopJustified() && InputParsed() && RepliesOk(hist.log, answers, stop)
      && readEnabled == (stop.Running? && !readShut)
    }

    ghost predicate RecvHistory()
      reads `closeReceived, `statusRecv, `processed, `delivered, `pongs, `stop, `readShut, `readEnabled
      reads `writeEnabled, `closeQueued, `hist, frameIn.pipe
    {
      Receiving(delivered, pongs)
    }

    /** A Close that was taken is the last frame processed. */
    ghost predicate CloseRecorded()
      reads `closeReceived, `statusRecv, `processed, `stop
    {
      stop.CloseTaken? ==>
        && processed != [] && processed[|processed| - 1].payload == stop.payload
        && CloseMet(processed[|processed| - 1].h, stop.payload, stop.pieces)
    }

    /** The payload that has come of the frame under way is fine so far. */
    ghost predicate ChunksFine()
      reads `processed, `checked, `pieces, frameIn
    {
      FrameIn.GotSoFar(frameIn.cur) != [] ==>
        && Pieces(frameIn.cur.h, frameIn.cur.got, checked, pieces)
        && JudgeContent(Assemble(processed).open, frameIn.cur.h, frameIn.cur.got, checked) == Fine
    }

    ghost predicate ValidRecv()
      reads `closeReceived, `statusRecv, `processed, `checked, `pieces, `delivered, `pongs, `stop, `readShut
      reads `readEnabled
      reads `writeEnabled, `closeQueued, `hist
      reads `slot0, `slot1, `second, `ipayloadlen, `ipayloadoff, frameIn, frameIn.ibuf, frameIn.pipe
    {
      && RecvHistory() && CloseRecorded()
      && (readEnabled ==>
            && frameIn.Valid() && processed == frameIn.frames
            && Mirrors(RView(), processed, frameIn.cur, checked) && ChunksFine())
    }

    /** What the receive function returns once reading has ended. */
    ghost function EndCode(): int
      reads `stop, `hist
    {
      RecvCode(stop, hist.log)
    }

    /** wslay_event_context_new, for a server or a client. */
    constructor (cfg: Config, outPipe: Pipe, inPipe: Pipe)
      requires outPipe.bytes == [] && !outPipe.overran && inPipe.taken == 0 && outPipe != inPipe
      requires cfg.maxLength < COUNTER_LIMIT
      ensures ValidSend() && SView() == Initial(cfg.server) && !broken && AtRest(SView())
      ensures ValidRecv() && readEnabled && processed == [] && delivered == []
      ensures this.cfg == cfg && frameOut.pipe == outPipe && frameIn.pipe == inPipe
      ensures error == 0 && !starved && !closeQueued && queuedMsgCount == queuedMsgLength == 0
      ensures fresh(frameOut) && fresh(frameOut.oheader) && fresh(frameIn) && fresh(frameIn.ibuf) && fresh(obuf)
    {
      hide FrameOut.FrameSender.Valid, FrameIn.FrameReceiver.Valid, ValidRecv, ValidSend, SView, AtRest, Inv, Initial;
      this.cfg := cfg;
      frameOut := new FrameOut.FrameSender(outPipe);
      frameIn := new FrameIn.FrameReceiver(inPipe);
      obuf := new byte[OBUF_SIZE](_ => 0);
      readEnabled, writeEnabled := true, true;
      closeReceived, closeQueued, closeSent := false, false, false;
      statusRecv, statusSent, error, errorSet := ABNORMAL_CLOSURE, ABNORMAL_CLOSURE, 0, 0;
      slot0 := EMPTY_SLOT;
      slot1 := EMPTY_SLOT;
      second, ipayloadlen, ipayloadoff := false, 0, 0;
      sendQueue, sendCtrlQueue, omsg := [], [], None;
      queuedMsgCount, queuedMsgLength := 0, 0;
      obuflimit, obufmark, opayloadlen, opayloadoff := 0, 0, 0, 0;
      hist, ended, writeShut, faulted := NO_HISTORY, {}, false, false;
      broken, maskFailed, starved, sourceFailed := false, false, false, false;
      processed, checked, pieces, delivered, pongs, stop, readShut := [], [], [], [], [], Running, false;
      new;
      InitialSend();
      InitialRecv();
    }

    /** The send half starts with nothing queued and nothing printed. */
    lemma InitialSend()
      requires frameOut.Valid() && frameOut.Unfinished() && !frameOut.omask
      requires frameOut.done == [] && frameOut.cur == FrameOut.Idle
      requires obuf.Length == OBUF_SIZE && obuf != frameOut.oheader && frameOut.pipe != frameIn.pipe
      requires frameIn.ibuf != obuf && frameIn.ibuf != frameOut.oheader
      requires sendQueue == sendCtrlQueue == [] && omsg == None
      requires obuflimit == obufmark == opayloadlen == opayloadoff == 0
      requires queuedMsgCount == queuedMsgLength == 0 && writeEnabled && !closeQueued && hist == NO_HISTORY
      requires ended == {}
      requires error == errorSet && !broken && !frameOut.pipe.overran && !writeShut && !faulted && NoCloseNoted()
      ensures ValidSend() && SView() == Initial(cfg.server) && AtRest(SView())
    {
      hide Inv, FrameOut.FrameSender.Valid;
      InitialInv(cfg.server);
    }

    lemma InitialRecv()
      requires frameIn.Valid() && frameIn.frames == [] && frameIn.cur == FrameIn.NoFrame
      requires RView() == InitialView(cfg) && processed == [] && checked == [] && delivered == [] && pongs == []
      requires stop == Running && IsQueueable() && readEnabled && !readShut && hist == NO_HISTORY
      requires !closeReceived && statusRecv == ABNORMAL_CLOSURE
      ensures ValidRecv()
    {
      hide History, Mirrors, ParseStream, RepliesOk;
      RepliesStart();
      HistoryStarts(cfg);
      InitialMirrors(cfg);
    }

    /** Neither the sender of the bytes nor this side's own sending disturbs what was received. */
    twostate lemma Undisturbed()
      requires old(ValidRecv())
      requires old(frameIn.pipe.bytes) <= frameIn.pipe.bytes && frameIn.pipe.taken == old(frameIn.pipe.taken)
      requires unchanged(frameIn) && unchanged(frameIn.ibuf)
      requires unchanged(`slot0, `slot1, `second, `ipayloadlen, `ipayloadoff)
      requires unchanged(`closeReceived, `statusRecv, `processed, `checked, `pieces, `delivered, `pongs, `stop)
      requires unchanged(`readShut)
      requires hist.log == old(hist.log)
      requires readEnabled == old(readEnabled) && (IsQueueable() ==> old(IsQueueable()))
      ensures ValidRecv()
    {
      hide History, Mirrors, StopOk, ParseStream, StreamBytes, AllFaithful, FrameIn.FrameReceiver.Fields, RepliesOk;
      hide CloseChecked, CloseLast, TailFine, JudgeContent, Pieces, NextIn;
      assert frameIn.Fed() == old(frameIn.Fed());
      if old(IsQueueable()) && !IsQueueable() {
        HistoryFreezes(cfg, processed, delivered, pongs);
      }
    }

    /** Queueing and receiving get nothing past a stuck message. */
    twostate lemma OnlyQueued()
      requires old(obuflimit <= obuf.Length) && unchanged(`omsg, `obuflimit, frameOut, obuf)
      requires old(sendQueue) <= sendQueue
      ensures StillStuck(old(SView()), SView())
    {
      StuckStays(old(SView()), SView());
      hide StillStuck;
    }

    /** wslay_event_is_msg_queueable. */
    predicate IsQueueable()
      reads `writeEnabled, `closeQueued
    {
      writeEnabled && !closeQueued
    }

    /** A checked control message joins its queue. */
    method PushCtrl(m: OMsg, ghost reply: bool)
      requires ValidSend() && IsQueueable() && CtrlOk(m)
      modifies `queuedMsgCount, `queuedMsgLength, `sendCtrlQueue, `hist
      ensures ValidSend() && SView() == QueueCtrl(old(SView()), m, reply)
      ensures hist == old(hist).(log := old(hist).log + [Logged(Message(m), reply)])
    {
      hide Inv, FrameOut.FrameSender.Valid, Writing, CtrlOk, QueueCtrl;
      QueueCtrlKeeps(SView(), m, reply);
      AppendCtrl(m, reply);
    }

    /** The queue, the log and the counters move together. */
    method AppendCtrl(m: OMsg, ghost reply: bool)
      requires obuflimit <= obuf.Length
      modifies `queuedMsgCount, `queuedMsgLength, `sendCtrlQueue, `hist
      ensures SView() == QueueCtrl(old(SView()), m, reply)
      ensures hist == old(hist).(log := old(hist).log + [Logged(Message(m), reply)])
    {
      sendCtrlQueue := sendCtrlQueue + [m];
      hist := hist.(log := hist.log + [Logged(Message(m), reply)]);
      queuedMsgCount, queuedMsgLength := queuedMsgCount + 1, queuedMsgLength + DataLength(m);
    }

    /** A data message joins its queue. */
    method PushData(m: OMsg)
      requires ValidSend() && writeEnabled && Unstarted(m)
      modifies `queuedMsgCount, `queuedMsgLength, `hist, `sendQueue
      ensures ValidSend() && SView() == QueueData(old(SView()), m)
    {
      hide Inv, FrameOut.FrameSender.Valid, Writing, Unstarted, SView, QueueData;
      QueueDataKeeps(SView(), m);
      AppendData(m);
    }

    /** Likewise for a data message. */
    method AppendData(m: OMsg)
      requires obuflimit <= obuf.Length
      modifies `queuedMsgCount, `queuedMsgLength, `hist, `sendQueue
      ensures SView() == QueueData(old(SView()), m)
    {
      sendQueue := sendQueue + [m];
      hist := hist.(accepted := hist.accepted + [Message(m)],
                    frags := if m.Fragmented? then hist.frags + {|hist.accepted|} else hist.frags);
      queuedMsgCount, queuedMsgLength := queuedMsgCount + 1, queuedMsgLength + DataLength(m);
    }

    /** wslay_event_queue_msg; reply tells that the library itself is the caller. */
    method QueueMsg(opcode: nat, msg: seq<byte>, ghost reply: bool := false) returns (r: int)
      requires ValidSend() && (IsDataOpcode(opcode) || IsCtrlOpcode(opcode))
      modifies `queuedMsgCount, `queuedMsgLength, `hist
      modifies `sendQueue, `sendCtrlQueue
      ensures ValidSend()
      ensures r == if !IsQueueable() then ERR_NO_MORE_MSG
                   else if IsControl(opcode) && |msg| > 125 then ERR_INVALID_ARGUMENT else 0
      ensures r != 0 ==> SView() == old(SView())
      ensures IsControl(opcode) ==> sendQueue == old(sendQueue)
      ensures IsControl(opcode) ==>
        hist == if r == 0 then old(hist).(log := old(hist).log + [Logged(Msg(opcode, msg), reply)]) else old(hist)
      ensures r == 0 && IsControl(opcode) ==> SView() == QueueCtrl(old(SView()), Whole(opcode, msg), reply)
      ensures r == 0 && !IsControl(opcode) ==> SView() == QueueData(old(SView()), Whole(opcode, msg))
    {
      hide ValidSend, SView;
      if !IsQueueable() {
        return ERR_NO_MORE_MSG;
      }
      if IsControl(opcode) && |msg| > 125 {
        return ERR_INVALID_ARGUMENT;
      }
      if IsControl(opcode) {
        PushCtrl(Whole(opcode, msg), reply);
      } else {
        PushData(Whole(opcode, msg));
      }
      return 0;
    }

    /** wslay_event_queue_fragmented_msg. */
    method QueueFragmentedMsg(opcode: nat, source: seq<byte>) returns (r: int)
      requires ValidSend() && (IsDataOpcode(opcode) || IsControl(opcode))
      modifies `queuedMsgCount, `queuedMsgLength, `hist, `sendQueue
      ensures ValidSend()
      ensures r == if !IsQueueable() then ERR_NO_MORE_MSG else if IsControl(opcode) then ERR_INVALID_ARGUMENT else 0
      ensures SView() == if r == 0 then QueueData(old(SView()), Fragmented(opcode, false, source)) else old(SView())
    {
      hide ValidSend, SView;
      if !IsQueueable() {
        return ERR_NO_MORE_MSG;
      }
      if IsControl(opcode) {
        return ERR_INVALID_ARGUMENT;
      }
      PushData(Fragmented(opcode, false, source));
      return 0;
    }

    /** CLOSE_QUEUED is set, behind the Close just queued. */
    method MarkClose()
      requires ValidSend() && IsQueueable() && HasClose(SView().ctrlQ)
      requires hist.log != [] && hist.log[|hist.log| - 1].m.opcode == CLOSE
      modifies `closeQueued, `hist
      ensures ValidSend() && SView() == MarkedClose(old(SView())) && hist == old(hist).(closeAt := hist.closeAt)
      ensures closeQueued
    {
      hide Inv, FrameOut.FrameSender.Valid, HasClose;
      MarkCloseKeeps(SView());
      hist := hist.(closeAt := Begun(SView()));
      closeQueued := true;
    }

    /** wslay_event_queue_close: 1 when nothing may be queued any more, 2 when the reason is too long. */
    method QueueClose(status: nat, reason: seq<byte>, ghost reply: bool := false) returns (r: int)
      requires ValidSend() && status < 0x1_0000
      modifies `queuedMsgCount, `queuedMsgLength, `hist, `closeQueued
      modifies `sendQueue, `sendCtrlQueue
      ensures ValidSend()
      ensures r == if !old(IsQueueable()) then 1 else if |reason| > 123 then 2 else 0
      ensures SView() == if r == 0 then CloseWith(old(SView()), ClosePayload(status, reason), reply) else old(SView())
      ensures hist.log ==
        if r == 0 then old(hist.log) + [Logged(Msg(CLOSE, ClosePayload(status, reason)), reply)] else old(hist.log)
      ensures |reason| <= 123 ==> !IsQueueable()
      ensures hist.accepted == old(hist.accepted) && sendQueue == old(sendQueue)
      ensures AtRest(old(SView())) ==> AtRest(SView())
    {
      hide Inv, SView, FrameOut.FrameSender.Valid, HasClose;
      if !IsQueueable() {
        return 1;
      }
      if |reason| > 123 {
        return 2;
      }
      r := QueueMsg(CLOSE, ClosePayload(status, reason), reply);
      HasCloseLast(old(SView()).ctrlQ, Whole(CLOSE, ClosePayload(status, reason)));
      MarkClose();
    }

    /** wslay_event_queue_close_wrapper: also ends reading; passes the 1 of a refused Close through. */
    method QueueCloseWrapper(status: nat, reason: seq<byte>) returns (r: int)
      requires ValidSend() && status < 0x1_0000
      modifies `readEnabled, `queuedMsgCount, `queuedMsgLength, `hist, `closeQueued
      modifies `sendQueue, `sendCtrlQueue
      ensures ValidSend() && !readEnabled
      ensures r == if !old(IsQueueable()) then 1 else if |reason| > 123 then 2 else 0
      ensures SView() == if r == 0 then CloseWith(old(SView()), ClosePayload(status, reason), true) else old(SView())
      ensures hist.log ==
        if r == 0 then old(hist.log) + [Logged(Msg(CLOSE, ClosePayload(status, reason)), true)] else old(hist.log)
      ensures |reason| <= 123 ==> !IsQueueable()
      ensures hist.accepted == old(hist.accepted) && sendQueue == old(sendQueue)
      ensures AtRest(old(SView())) ==> AtRest(SView())
    {
      hide Inv, FrameOut.FrameSender.Valid;
      readEnabled := false;
      r := QueueClose(status, reason, true);
      if r != 0 && r != ERR_NO_MORE_MSG {
        return r;
      }
      return 0;
    }

    // -- Sending -----------------------------------------------------------

    /** A message becomes the current one. */
    method MakeCurrent(m: OMsg)
      modifies `omsg, `opayloadlen, `opayloadoff
      ensures omsg == Some(m)
      ensures m.Whole? ==> opayloadlen == |m.data| && opayloadoff == 0
      ensures m.Fragmented? ==> opayloadlen == old(opayloadlen) && opayloadoff == old(opayloadoff)
    {
      omsg := Some(m);
      if m.Whole? {
        opayloadlen, opayloadoff := |m.data|, 0;
      }
    }

    method PopDataQueue()
      requires ValidSend() && writeEnabled && omsg.None? && sendCtrlQueue == [] && sendQueue != []
      modifies `omsg, `opayloadlen, `opayloadoff, `sendQueue
      ensures ValidSend() && SView() == PopData(old(SView()))
    {
      hide Inv, FrameOut.FrameSender.Valid;
      PopDataKeeps(SView());
      var m := sendQueue[0];
      sendQueue := sendQueue[1..];
      MakeCurrent(m);
    }

    method PopCtrlQueue()
      requires ValidSend() && writeEnabled && omsg.None? && sendCtrlQueue != []
      requires closeQueued ==> sendCtrlQueue[0].opcode == CLOSE
      modifies `omsg, `opayloadlen, `opayloadoff, `sendCtrlQueue
      ensures ValidSend() && SView() == PopCtrl(old(SView()))
    {
      hide Inv, FrameOut.FrameSender.Valid;
      PopCtrlKeeps(SView());
      var m := sendCtrlQueue[0];
      sendCtrlQueue := sendCtrlQueue[1..];
      MakeCurrent(m);
    }

    method DropCtrlMsg()
      requires ValidSend() && writeEnabled && closeQueued && omsg.None? && sendCtrlQueue != []
      requires sendCtrlQueue[0].opcode != CLOSE
      modifies `hist, `sendCtrlQueue
      ensures ValidSend() && SView() == DropCtrl(old(SView()))
    {
      hide Inv, FrameOut.FrameSender.Valid;
      DropCtrlKeeps(SView());
      hist := hist.(discarded := hist.discarded + [sendCtrlQueue[0]]);
      sendCtrlQueue := sendCtrlQueue[1..];
    }

    /** wslay_event_send_ctrl_queue_pop; with Close queued, the search never runs out of messages. */
    method SendCtrlQueuePop()
      requires ValidSend() && writeEnabled && omsg.None? && sendCtrlQueue != []
      modifies `omsg, `opayloadlen, `opayloadoff, `hist, `sendCtrlQueue
      ensures ValidSend() && SView() == TakeCtrl(old(SView()))
    {
      hide Inv, FrameOut.FrameSender.Valid;
      if closeQueued {
        DropToCloseKeeps(SView());
        while sendCtrlQueue[0].opcode != CLOSE
          invariant ValidSend() && omsg.None? && sendCtrlQueue != []
          invariant DropToClose(SView()) == DropToClose(old(SView()))
          decreases |sendCtrlQueue|
        {
          DropCtrlMsg();
          CloseIsWaiting(SView());
        }
      }
      PopCtrlQueue();
    }

    /** Preemption: the current data message goes back to the front of its queue. */
    method PutMsgBack()
      requires ValidSend() && omsg.Some? && !IsControl(omsg.value.opcode) && frameOut.cur.Idle? && obuflimit == 0
      requires !broken
      modifies `omsg, `sendQueue
      ensures ValidSend() && SView() == PutBack(old(SView()))
    {
      hide Inv, FrameOut.FrameSender.Valid;
      PutBackKeeps(SView());
      sendQueue := [omsg.value] + sendQueue;
      omsg := None;
    }

    /** The head of the send loop: which message goes on. */
    method ChooseMsg()
      requires ValidSend() && writeEnabled && AtRest(SView())
      requires sendQueue != [] || sendCtrlQueue != [] || omsg.Some?
      modifies `omsg, `opayloadlen, `opayloadoff, `hist, `sendQueue, `sendCtrlQueue
      ensures ValidSend() && SView() == Choose(old(SView()))
    {
      hide Inv, TakeCtrl, PopData;
      if omsg.None? {
        if sendCtrlQueue == [] {
          PopDataQueue();
        } else {
          SendCtrlQueuePop();
        }
      } else if !IsControl(omsg.value.opcode) && frameOut.ostate == FrameOut.PREP_HEADER {
        if sendCtrlQueue != [] {
          PutMsgBack();
          SendCtrlQueuePop();
        }
      }
    }

    // -- One frame, or a part of it ----------------------------------------

    /** The callbacks of the call that follows may set the error value. */
    method CallbackSetsError()
      modifies `error, `errorSet
      ensures error == errorSet
    {
      error := *;
      errorSet := error;
    }

    /** Neither the error a callback reports nor clearing it disturbs the send half. */
    method CallbackReports()
      requires ValidSend()
      modifies `error, `errorSet
      ensures ValidSend() && SView() == old(SView())
    {
      hide Inv, FrameOut.FrameSender.Valid, Writing;
      CallbackSetsError();
    }

    method ClearError()
      requires ValidSend()
      modifies `error, `errorSet
      ensures ValidSend() && SView() == old(SView()) && error == 0
    {
      hide Inv, FrameOut.FrameSender.Valid, Writing;
      error, errorSet := 0, 0;
    }

    /** Writing fails for good, unless the send callback only asked to be called again later. */
    predicate Fatal(code: FrameOut.Code)
      reads this
    {
      code != FrameOut.WANT_WRITE || (error != ERR_WOULDBLOCK && error != 0)
    }

    /** wslay_frame_send: the printer's state is all that changes. */
    method CallPrinter(io: FrameOut.Iocb) returns (code: FrameOut.Code, length: nat, ghost b: FrameOut.Progress)
      requires SendObjects() && !broken && io.mask == !cfg.server
      requires frameOut.cur.Busy? ==> frameOut.cur.mask == frameOut.cur.h.key && io.payloadLength == frameOut.cur.h.len
      modifies `error, `errorSet, `broken, `maskFailed, frameOut, frameOut.oheader, frameOut.pipe`bytes
      modifies frameOut.pipe`stalled, frameOut.pipe`overran
      ensures SendObjects() && (broken || maskFailed <==> code == FrameOut.INVALID_CALLBACK)
      ensures maskFailed == frameOut.maskRefused
      ensures !Progressed(code) && !broken ==> SView() == old(SView())
      ensures code == FrameOut.INVALID_ARGUMENT ==> |io.data| > io.payloadLength || FrameOut.Oversized(io)
      ensures Progressed(code) ==> length <= |io.data| && b.Busy? && b.mask == b.h.key
      ensures Progressed(code) ==> FrameOut.Continues(old(frameOut.cur), io, length, b)
      ensures Progressed(code) ==> SView() == Printed(old(SView()), code == FrameOut.OK, b)
      ensures code == FrameOut.WANT_WRITE ==> length == 0 && frameOut.pipe.stalled
      ensures code == FrameOut.OK && length < |io.data| ==> frameOut.pipe.stalled
      ensures code == FrameOut.OK && io.data != [] ==> length > 0
      ensures (code == FrameOut.OK && io.data != []) || (code == FrameOut.WANT_WRITE && frameOut.pipe.lively) ==>
        |frameOut.pipe.bytes| > |old(frameOut.pipe.bytes)|
      ensures old(frameOut.pipe.bytes) <= frameOut.pipe.bytes
    {
      hide FrameOut.FrameSender.Valid, FrameOut.FrameSender.Coupled, FrameOut.FrameSender.CurBytes;
      hide FrameOut.Oversized, FrameOut.HeaderFor, FrameOut.Continues, SView;
      ghost var before := frameOut.cur;
      CallbackSetsError();
      code, length, b := frameOut.Send(io);
      broken, maskFailed := frameOut.pipe.overran, frameOut.maskRefused;
      if Progressed(code) {
        FrameOut.MaskFollows(before, io, length, b);
      }
      PrinterRan();
    }

    /** What a call of the printer changes of the view. */
    twostate lemma PrinterRan()
      requires obuflimit <= obuf.Length && unchanged(`sendQueue, `sendCtrlQueue, `omsg, `obuflimit, `obufmark, obuf)
      requires unchanged(`opayloadlen, `opayloadoff, `writeEnabled, `closeQueued)
      requires unchanged(`queuedMsgCount, `queuedMsgLength, `ended, `hist)
      ensures SView() == old(SView()).(frames := frameOut.done, cur := frameOut.cur)
      ensures old(SView().frames == frameOut.done && SView().cur == frameOut.cur)
    {
    }

    /** While writing is on, nothing has ended it. */
    lemma WritingOn()
      requires ValidSend() && writeEnabled
      ensures !broken && Writing() && !writeShut && !faulted && !LastIsClose(frameOut.done) && NoCloseNoted()
    {
      hide Inv, SendObjects, CloseNoted, NoCloseNoted;
    }

    /** Nothing that ends writing has happened. */
    twostate lemma StillWriting()
      requires old(Writing()) && frameOut.done == old(frameOut.done)
      requires unchanged(`writeEnabled, `writeShut, `faulted, `closeSent, `statusSent)
      ensures Writing()
    {
    }

    static predicate Progressed(code: FrameOut.Code) { code == FrameOut.OK || code == FrameOut.WANT_WRITE }

    /** A frame under way is masked as its header says. */
    lemma CurrentMask()
      requires ValidSend() && !broken
      ensures frameOut.cur.Busy? ==> frameOut.cur.mask == frameOut.cur.h.key
    {
      hide ContentOk, QueuesOk, FramesOk, CountersOk, CloseOk, FrameOut.FrameSender.Valid;
    }

    /** No header can announce the length of the current message. */
    predicate TooLong()
      reads `omsg
    {
      omsg.Some? && omsg.value.Whole? && |omsg.value.data| >= MAX_PAYLOAD
    }

    /** What makes sending fail for good: a callback, or the current message. */
    ghost predicate SendFault()
      reads `broken, `maskFailed, `error, `sourceFailed, `omsg
    {
      broken || maskFailed || sourceFailed || (error != ERR_WOULDBLOCK && error != 0) || TooLong()
    }

    /** The printer takes the current frame further: the event layer's offsets follow. */
    method SendFrame(io: FrameOut.Iocb) returns (code: FrameOut.Code, ghost adv: SendView)
      requires ValidSend() && writeEnabled && Chosen(SView()) && (omsg.value.Fragmented? ==> obuflimit > 0)
      requires io == IoOf(SView())
      modifies `error, `errorSet, `broken, `maskFailed, `opayloadoff, `obufmark, frameOut
      modifies frameOut.oheader, frameOut.pipe`bytes, frameOut.pipe`stalled, frameOut.pipe`overran
      ensures SendObjects() && (broken || maskFailed <==> code == FrameOut.INVALID_CALLBACK)
      ensures !Progressed(code) && !broken ==> SView() == old(SView())
      ensures code == FrameOut.INVALID_ARGUMENT ==> !broken && TooLong()
      ensures Progressed(code) ==> Inv(adv) && adv.cur.Busy? && SameMessage(adv, old(SView()))
      ensures code == FrameOut.WANT_WRITE ==> adv.mark == old(obufmark) && frameOut.pipe.stalled
      ensures code == FrameOut.OK && !FrameComplete(adv) ==>
        && frameOut.pipe.stalled
        && (if omsg.value.Whole? then opayloadoff > old(opayloadoff) else obufmark > old(obufmark))
      ensures old(frameOut.pipe.bytes) <= frameOut.pipe.bytes
      ensures !broken && !(code == FrameOut.OK && FrameComplete(adv)) ==> frameOut.done == old(frameOut.done)
      ensures Progressed(code) ==> SView() == if code == FrameOut.OK && FrameComplete(adv) then FrameSent(adv) else adv
      ensures Progressed(code) && !(code == FrameOut.OK && FrameComplete(adv)) && frameOut.pipe.lively ==>
        Nearer(old(SView()), |old(frameOut.pipe.bytes)|, adv, |frameOut.pipe.bytes|)
    {
      hide Inv, IoOf, FrameOut.FrameSender.Valid, FrameOut.Continues, Advance, Moved, Printed, FrameSent, Writing;
      hide Nearer;
      var length: nat;
      ghost var v, b, sent := SView(), frameOut.cur, frameOut.pipe.bytes;
      CurrentMask();
      MaskAsked(v);
      ArgumentFits(v);
      code, length, b := CallPrinter(io);
      adv := v;
      if Progressed(code) {
        FrameAdvances(v, code == FrameOut.OK, length, b, |sent|, |frameOut.pipe.bytes|);
        adv := Advance(v, length, b);
        MoveOffsets(length);
      }
    }

    /** The event layer's own offset of the current frame. */
    method MoveOffsets(n: nat)
      requires SendObjects() && omsg.Some? && (omsg.value.Fragmented? ==> obufmark + n <= obuflimit)
      modifies `opayloadoff, `obufmark
      ensures SendObjects() && SView() == Moved(old(SView()), n)
      ensures if omsg.value.Whole? then opayloadoff == old(opayloadoff) + n else obufmark == old(obufmark) + n
    {
      hide FrameOut.FrameSender.Valid;
      if omsg.value.Whole? {
        opayloadoff := opayloadoff + n;
      } else {
        obufmark := obufmark + n;
      }
    }

    /** The message is out: it leaves the engine, and a Close ends all writing. */
    method RetireMsg(ghost adv: SendView)
      requires SendObjects() && writeEnabled && !broken && Inv(adv) && FrameComplete(adv) && SView() == FrameSent(adv)
      requires omsg.Some? && (omsg.value.Whole? || omsg.value.fin) && !writeShut && !faulted
      requires if omsg.value.opcode == CLOSE then closeSent && statusSent == SentStatus(Body(omsg.value))
               else NoCloseNoted()
      modifies `omsg, `obuflimit, `obufmark, `queuedMsgCount, `queuedMsgLength, `writeEnabled
      ensures ValidSend() && (!writeEnabled ==> CloseNoted()) && AtRest(SView())
      ensures omsg == None && (old(omsg.value.opcode) != CLOSE ==> writeEnabled)
      ensures adv.count > 0 && adv.length >= DataLength(adv.omsg.value) && SView() == Retire(FrameSent(adv))
    {
      hide Inv, FrameOut.FrameSender.Valid, FrameComplete, AtRest, DataLength, SentStatus, Writing, CloseNoted;
      hide LastIsClose;
      hide Retire, FrameSent, Body, IsControl;
      SameFlight(adv);
      RetireKeeps(adv);
      ClearMsg(adv);
      RetiredWriting(adv);
    }

    lemma SameFlight(adv: SendView)
      requires SendObjects() && FrameComplete(adv) && SView() == FrameSent(adv)
      ensures adv.cur.Busy? && adv.omsg == omsg && adv.writeEnabled == writeEnabled
      ensures queuedMsgCount == adv.count && queuedMsgLength == adv.length
    {
      hide FrameOut.FrameSender.Valid;
    }

    /** The current message is forgotten, and no longer counted. */
    method ClearMsg(ghost adv: SendView)
      requires obuflimit <= obuf.Length && writeEnabled && adv.cur.Busy? && omsg.Some? && omsg == adv.omsg
      requires SView() == FrameSent(adv)
      requires adv.count > 0 && adv.length >= DataLength(adv.omsg.value)
      requires queuedMsgCount == adv.count && queuedMsgLength == adv.length
      modifies `omsg, `obuflimit, `obufmark, `queuedMsgCount, `queuedMsgLength, `writeEnabled
      ensures obuflimit == obufmark == 0 && omsg == None && SView() == Retire(FrameSent(adv))
      ensures writeEnabled == (old(omsg.value.opcode) != CLOSE)
      ensures frameOut.done == Retire(FrameSent(adv)).frames && writeEnabled == Retire(FrameSent(adv)).writeEnabled
    {
      hide DataLength;
      queuedMsgCount, queuedMsgLength := queuedMsgCount - 1, queuedMsgLength - DataLength(omsg.value);
      writeEnabled := omsg.value.opcode != CLOSE;
      obufmark, obuflimit, omsg := 0, 0, None;
      assert obuf[..0] == [];
    }

    /** After a message was retired writing is on, unless the message was a Close. */
    lemma RetiredWriting(adv: SendView)
      requires Inv(adv) && FrameComplete(adv) && adv.writeEnabled && adv.omsg.Some?
      requires adv.count > 0 && adv.length >= DataLength(adv.omsg.value)
      requires frameOut.done == Retire(FrameSent(adv)).frames && writeEnabled == Retire(FrameSent(adv)).writeEnabled
      requires !writeShut && !faulted
      requires if adv.omsg.value.opcode == CLOSE then closeSent && statusSent == SentStatus(Body(adv.omsg.value))
               else NoCloseNoted()
      ensures Writing() && (!writeEnabled ==> CloseNoted())
    {
      hide Inv, FrameComplete, DataLength, SentStatus;
      RetireCloses(adv);
    }

    /** CLOSE_SENT and the status sent. */
    method NoteCloseSent(m: OMsg)
      modifies `closeSent, `statusSent
      ensures if m.Whole? && m.opcode == CLOSE then closeSent && statusSent == SentStatus(m.data)
              else closeSent == old(closeSent) && statusSent == old(statusSent)
    {
      if m.opcode == CLOSE && m.Whole? {
        closeSent, statusSent := true, SentStatus(m.data);
      }
    }

    /** The fragment is out; the rest of the message follows as continuations. */
    method ContinueMsg(ghost adv: SendView)
      requires SendObjects() && writeEnabled && !broken && Inv(adv) && FrameComplete(adv) && SView() == FrameSent(adv)
      requires omsg.Some? && omsg.value.Fragmented? && !omsg.value.fin && !writeShut && !faulted && NoCloseNoted()
      modifies `omsg, `obuflimit, `obufmark
      ensures ValidSend() && AtRest(SView()) && SView() == NextFragment(FrameSent(adv))
    {
      hide Inv, FrameOut.FrameSender.Valid, FrameComplete, AtRest;
      NextFragmentKeeps(adv);
      NextFragmentIsOpen(adv);
      obufmark, obuflimit := 0, 0;
      omsg := Some(Fragmented(CONTINUATION, omsg.value.fin, omsg.value.source));
    }

    /** wslay_event_shutdown_write. */
    method ShutdownWrite()
      requires ValidSend()
      modifies `writeEnabled, `writeShut
      ensures ValidSend() && !writeEnabled && writeShut && SView() == old(SView()).(writeEnabled := false)
    {
      hide Inv, FrameOut.FrameSender.Valid, CloseNoted;
      if !broken {
        DisableKeeps(SView());
      }
      writeEnabled, writeShut := false, true;
    }

    /** Sending has failed: all writing ends. */
    method FailWrite()
      requires SendObjects() && (!broken ==> Inv(SView()) && Writing())
      modifies `writeEnabled, `faulted
      ensures ValidSend() && !writeEnabled && faulted && SView() == old(SView()).(writeEnabled := false)
    {
      hide Inv, FrameOut.FrameSender.Valid, CloseNoted;
      if !broken {
        DisableKeeps(SView());
      }
      writeEnabled, faulted := false, true;
    }

    /** The read callback of a fragmented message: fills at most 4096 bytes, and may say that these were the last. */
    method ReadCallback(source: seq<byte>) returns (r: int, eof: bool)
      modifies obuf, `error, `errorSet, `starved, `sourceFailed, `ended
      ensures starved == (r == 0) && sourceFailed == (r < 0) && error == errorSet
      ensures ended == if r > 0 && eof then old(ended) + {DataSent(frameOut.done)} else old(ended)
      ensures r <= |source| && r <= obuf.Length && (r > 0 ==> obuf[..r] == source[..r] && (eof ==> r == |source|))
    {
      CallbackSetsError();
      r := *;
      if r > |source| || r > obuf.Length {
        r := 0;
      }
      eof := *;
      if r < |source| {
        eof := false;
      }
      if r > 0 {
        forall i | 0 <= i < r {
          obuf[i] := source[i];
        }
      }
      starved, sourceFailed := r == 0, r < 0;
      if r > 0 && eof {
        ended := ended + {DataSent(frameOut.done)};
      }
    }

    /** The next fragment of the current message comes into the buffer. */
    method FetchFragment() returns (r: int, eof: bool)
      requires ValidSend() && writeEnabled && omsg.Some? && omsg.value.Fragmented? && !omsg.value.fin
      requires frameOut.cur.Idle? && obuflimit == 0
      modifies `omsg, `obuflimit, `obufmark, `opayloadlen, `opayloadoff, `error, `errorSet, obuf
      modifies `starved, `sourceFailed, `ended
      ensures ended == if r > 0 && eof then old(ended) + {DataSent(frameOut.done)} else old(ended)
      ensures ValidSend() && starved == (r == 0) && sourceFailed == (r < 0)
      ensures r <= 0 ==> SView() == old(SView())
      ensures r > 0 ==> r <= |old(omsg.value.source)| && (eof ==> r == |old(omsg.value.source)|)
      ensures r > 0 ==> obuflimit == r && SView() == ReadFragment(old(SView()), r, eof)
    {
      hide Inv, FrameOut.FrameSender.Valid, Writing, DataSent;
      ghost var v := SView();
      r, eof := ReadCallback(omsg.value.source);
      assert obuf[..0] == [];
      if r > 0 {
        TakeFragment(v, r, eof);
      }
    }

    /** r bytes of the source are in the buffer. */
    method TakeFragment(ghost v: SendView, r: nat, eof: bool)
      requires SendObjects() && !broken && Writing() && Inv(v) && SView() == Reported(v, eof)
      requires omsg.Some? && omsg.value.Fragmented? && !omsg.value.fin && frameOut.cur.Idle? && obuflimit == 0
      requires 0 < r <= |omsg.value.source| && r <= obuf.Length
      requires obuf[..r] == omsg.value.source[..r] && (eof ==> r == |omsg.value.source|)
      modifies `omsg, `obuflimit, `obufmark, `opayloadlen, `opayloadoff
      ensures ValidSend() && obuflimit == r && SView() == ReadFragment(v, r, eof)
    {
      hide Inv, FrameOut.FrameSender.Valid, Writing, AtRest, IsControl, ReadFragment, SView;
      NothingBuffered();
      ReadFragmentKeeps(v, r, eof);
      MoveFragment(v, r, eof);
    }

    lemma NothingBuffered()
      requires SendObjects() && obuflimit == 0
      ensures SView().obuf == [] && SView().omsg == omsg && SView().cur == frameOut.cur
    {
      hide FrameOut.FrameSender.Valid;
      assert obuf[..0] == [];
    }

    /** The fragment is set up to be sent. */
    method MoveFragment(ghost v: SendView, r: nat, eof: bool)
      requires omsg.Some? && omsg.value.Fragmented? && r <= |omsg.value.source|
      requires obuflimit <= obuf.Length && r <= obuf.Length && obuf[..r] == omsg.value.source[..r]
      requires SView() == Reported(v, eof)
      modifies `omsg, `obuflimit, `obufmark, `opayloadlen, `opayloadoff
      ensures obuflimit == r && obufmark == 0 && SView() == ReadFragment(v, r, eof)
    {
      hide DataSent;
      omsg := Some(Fragmented(omsg.value.opcode, eof, omsg.value.source[r..]));
      obuflimit, obufmark, opayloadlen, opayloadoff := r, 0, r, 0;
    }

    /** After a call that did not go through: writing ends, unless the callback merely could not take more. */
    method SendFailed(code: FrameOut.Code) returns (r: int)
      requires SendObjects() && (if broken then code == FrameOut.INVALID_CALLBACK else Inv(SView()) && Writing())
      requires code != FrameOut.OK && (code == FrameOut.WANT_WRITE ==> AtRest(SView()))
      modifies `writeEnabled, `faulted
      ensures ValidSend() && AtRest(SView())
      ensures r == (if Fatal(code) then ERR_CALLBACK_FAILURE else 0) && (r != 0 ==> !writeEnabled && faulted)
      ensures SView() == old(SView()).(writeEnabled := old(writeEnabled) && r == 0)
    {
      hide Inv, FrameOut.FrameSender.Valid, Writing;
      r := 0;
      if Fatal(code) {
        FailWrite();
        r := ERR_CALLBACK_FAILURE;
      }
    }

    /** A round of the loop for a whole message; more tells that the loop goes on. */
    method SendWhole() returns (more: bool, r: int)
      requires ValidSend() && writeEnabled && Chosen(SView()) && omsg.value.Whole?
      modifies `error, `errorSet, `broken, `maskFailed, `writeEnabled, `opayloadoff, `obufmark, frameOut
      modifies frameOut.oheader, frameOut.pipe`bytes, frameOut.pipe`stalled, frameOut.pipe`overran
      modifies `omsg, `obuflimit, `queuedMsgCount, `queuedMsgLength, `closeSent, `statusSent, `faulted
      ensures ValidSend() && AtRest(SView()) && (r == 0 || (r == ERR_CALLBACK_FAILURE && !writeEnabled && !more))
      ensures more ==> Work(SView()) < Work(old(SView()))
      ensures (r != 0 ==> SendFault()) && (r == 0 && !writeEnabled ==> CloseNoted())
      ensures !more && writeEnabled ==> frameOut.pipe.stalled
      ensures !more && r == 0 ==> opayloadoff > old(opayloadoff) || error == 0 || error == ERR_WOULDBLOCK
      ensures !more && writeEnabled && frameOut.pipe.lively ==>
        Nearer(old(SView()), |old(frameOut.pipe.bytes)|, SView(), |frameOut.pipe.bytes|)
      ensures old(frameOut.pipe.bytes) <= frameOut.pipe.bytes
      ensures !broken ==> StillStuck(old(SView()), SView())
    {
      hide Inv, FrameOut.FrameSender.Valid, Work, FrameComplete, AtRest, SentStatus, StillStuck, CloseNoted;
      hide DataLength, Writing, Nearer;
      WritingOn();
      ghost var v, adv := SView(), SView();
      IoInRange(v);
      var io := FrameOut.Iocb(true, 0, omsg.value.opcode, !cfg.server, opayloadlen, omsg.value.data[opayloadoff..]);
      var code;
      code, adv := SendFrame(io);
      if code != FrameOut.OK {
        if !broken {
          StillWriting();
        }
        r := FrameFailed(code, v, adv);
        return false, r;
      }
      WholeWent(v, adv);
      if opayloadoff != opayloadlen {
        StillWriting();
        return false, 0;
      }
      CompleteWhole(adv);
      StillStuckTrans(v, adv, SView());
      return true, 0;
    }

    /** A call of the printer did not go through. */
    method FrameFailed(code: FrameOut.Code, ghost v: SendView, ghost adv: SendView) returns (r: int)
      requires SendObjects() && code != FrameOut.OK && (broken ==> code == FrameOut.INVALID_CALLBACK)
      requires !broken ==> Writing()
      requires Inv(v) && (!Progressed(code) && !broken ==> SView() == v)
      requires Progressed(code) ==> Inv(adv) && adv.cur.Busy? && SameMessage(adv, v) && SView() == adv
      requires Progressed(code) && v.omsg.Some? && v.omsg.value.Fragmented? ==> adv.mark < |adv.obuf|
      requires (broken || maskFailed <==> code == FrameOut.INVALID_CALLBACK)
      requires (code == FrameOut.INVALID_ARGUMENT ==> TooLong())
      requires (code == FrameOut.WANT_WRITE ==> frameOut.pipe.stalled)
      modifies `writeEnabled, `faulted
      ensures ValidSend() && AtRest(SView()) && (r == 0 || (r == ERR_CALLBACK_FAILURE && !writeEnabled && SendFault()))
      ensures r == 0 ==>
        frameOut.pipe.stalled && writeEnabled == old(writeEnabled) && (error == 0 || error == ERR_WOULDBLOCK)
      ensures r == 0 ==> Progressed(code) && SView() == old(SView())
      ensures !broken ==> StillStuck(v, SView())
    {
      hide Inv, FrameOut.FrameSender.Valid, AtRest, StillStuck, Writing, IsControl;
      if Progressed(code) {
        RestingBusy(adv);
      }
      r := SendFailed(code);
      if !broken {
        StuckStays(v, SView());
      }
    }

    /** The last frame of a whole message is out. */
    method CompleteWhole(ghost adv: SendView)
      requires SendObjects() && writeEnabled && !broken && Inv(adv) && FrameComplete(adv) && SView() == FrameSent(adv)
      requires omsg.Some? && omsg.value.Whole? && !writeShut && !faulted && NoCloseNoted()
      modifies `omsg, `obuflimit, `obufmark, `queuedMsgCount, `queuedMsgLength, `writeEnabled, `closeSent, `statusSent
      ensures ValidSend() && AtRest(SView()) && (!writeEnabled ==> CloseNoted())
      ensures Work(SView()) < Work(adv) && StillStuck(adv, SView())
    {
      hide Inv, FrameOut.FrameSender.Valid, Work, AtRest, SentStatus, StillStuck, CloseNoted, DataLength, Writing;
      NoteCloseSent(omsg.value);
      RetireMsg(adv);
      StuckRetired(adv);
      RetireIsProgress(adv);
    }

    /** A round of the loop for a fragmented message. */
    method SendFragment() returns (more: bool, r: int)
      requires ValidSend() && writeEnabled && Chosen(SView()) && omsg.value.Fragmented?
      requires AtRest(SView())
      modifies `error, `errorSet, `broken, `maskFailed, `writeEnabled, `opayloadoff, `obufmark, frameOut
      modifies frameOut.oheader, frameOut.pipe`bytes, frameOut.pipe`stalled, frameOut.pipe`overran
      modifies `omsg, `obuflimit, `queuedMsgCount, `queuedMsgLength, `opayloadlen, `starved, `sourceFailed
      modifies `ended, `faulted, obuf
      ensures ValidSend() && AtRest(SView()) && (r == 0 || (r == ERR_CALLBACK_FAILURE && !writeEnabled && !more))
      ensures more ==> Work(SView()) < Work(old(SView()))
      ensures (r != 0 ==> SendFault()) && (r == 0 && !writeEnabled ==> CloseNoted())
      ensures !more && writeEnabled ==> frameOut.pipe.stalled || (starved && AllEndedSent(SView()))
      ensures !more && writeEnabled && frameOut.pipe.lively ==>
        starved || Nearer(old(SView()), |old(frameOut.pipe.bytes)|, SView(), |frameOut.pipe.bytes|)
      ensures !broken ==> StillStuck(old(SView()), SView())
      ensures old(ended) <= ended
      ensures old(frameOut.pipe.bytes) <= frameOut.pipe.bytes
    {
      hide Inv, FrameOut.FrameSender.Valid, Writing, Work, AtRest, AllEndedSent, SendFault, CloseNoted;
      hide Nearer;
      ghost var v := SView();
      if !omsg.value.fin && obuflimit == obufmark {
        r := FillFragment();
        if r <= 0 {
          return false, if r < 0 then ERR_CALLBACK_FAILURE else 0;
        }
      } else {
        FragmentLeft(SView());
      }
      ghost var w, sent := SView(), frameOut.pipe.bytes;
      more, r := SendFetched();
      if !more && writeEnabled && frameOut.pipe.lively {
        NearerBefore(v, w, |sent|, SView(), |frameOut.pipe.bytes|);
      }
    }

    /** Nothing is left in the buffer: the next fragment comes into it, unless the source has none. */
    method FillFragment() returns (r: int)
      requires ValidSend() && writeEnabled && Chosen(SView()) && AtRest(SView())
      requires omsg.value.Fragmented? && !omsg.value.fin && obuflimit == obufmark
      modifies `omsg, `obuflimit, `obufmark, `opayloadlen, `opayloadoff, `error, `errorSet, obuf
      modifies `starved, `sourceFailed, `ended, `writeEnabled, `faulted
      ensures ValidSend() && writeEnabled == (r >= 0) && !broken && old(ended) <= ended
      ensures r > 0 ==> Chosen(SView()) && omsg.value.Fragmented? && obufmark < obuflimit
      ensures r > 0 ==> Work(SView()) == Work(old(SView())) && !Stuck(old(SView()))
      ensures SView().frames == old(SView()).frames && SView().cur == old(SView()).cur
      ensures r <= 0 ==> AtRest(SView()) && StillStuck(old(SView()), SView())
      ensures r == 0 ==> starved && AllEndedSent(SView())
      ensures r < 0 ==> SendFault()
    {
      hide ValidSend, SView, Inv, Work, ReadFragment, Stuck, StillStuck, AllEndedSent, AtRest;
      SourceAwaited();
      ghost var v := SView();
      var eof;
      r, eof := FetchFragment();
      if r > 0 {
        FragmentFetched(v, r, eof);
      } else if r == 0 {
        NoneLeftToEnd(v);
        StuckStays(v, v);
      } else {
        ReadFailed(v);
      }
    }

    /** The fragment in the buffer is out, and the message has not ended. */
    lemma SourceAwaited()
      requires ValidSend() && writeEnabled && Chosen(SView()) && AtRest(SView())
      requires omsg.value.Fragmented? && !omsg.value.fin && obuflimit == obufmark
      ensures var v := SView();
        && Inv(v) && v.omsg == omsg && v.frames == frameOut.done && frameOut.cur == v.cur == FrameOut.Idle
        && v.writeEnabled && v.obuf == []
      ensures obuflimit == 0 && !broken
    {
      hide Inv, FrameOut.FrameSender.Valid, Writing;
      IdleWhenDrained(SView());
    }

    lemma FragmentFetched(v: SendView, r: nat, eof: bool)
      requires ValidSend() && Inv(v) && v.omsg.Some? && v.omsg.value.Fragmented? && 0 < r <= |v.omsg.value.source|
      requires v.obuf == [] && v.cur.Idle? && v.writeEnabled && Chosen(v)
      requires obuflimit == r && SView() == ReadFragment(v, r, eof)
      ensures Chosen(SView()) && omsg.Some? && omsg.value.Fragmented? && obufmark < obuflimit
      ensures Work(SView()) == Work(v) && !Stuck(v) && writeEnabled && SView().frames == v.frames
      ensures SView().cur == v.cur
    {
      hide Inv, FrameOut.FrameSender.Valid, Writing, Work, Stuck;
      ReadFragmentKeepsWork(v, r, eof);
      ReadIsNotStuck(v);
    }

    /** The read callback failed: writing ends. */
    method ReadFailed(ghost v: SendView)
      requires ValidSend() && writeEnabled && SView() == v
      modifies `writeEnabled, `faulted
      ensures ValidSend() && !writeEnabled && !broken && AtRest(SView()) && StillStuck(v, SView())
      ensures SView().frames == v.frames && SView().cur == v.cur
    {
      hide Inv, FrameOut.FrameSender.Valid, Writing, Stuck;
      FailWrite();
      StuckStays(v, SView());
    }

    /** The fragment in the buffer goes out. */
    method SendFetched() returns (more: bool, r: int)
      requires ValidSend() && writeEnabled && Chosen(SView()) && omsg.value.Fragmented? && obufmark < obuflimit
      modifies `error, `errorSet, `broken, `maskFailed, `writeEnabled, `opayloadoff, `obufmark, frameOut
      modifies frameOut.oheader, frameOut.pipe`bytes, frameOut.pipe`stalled, frameOut.pipe`overran
      modifies `omsg, `obuflimit, `queuedMsgCount, `queuedMsgLength, `faulted
      ensures ValidSend() && AtRest(SView()) && (r == 0 || (r == ERR_CALLBACK_FAILURE && !writeEnabled && !more))
      ensures more ==> Work(SView()) < Work(old(SView()))
      ensures (r != 0 ==> SendFault()) && (r == 0 && !writeEnabled ==> CloseNoted())
      ensures !more && writeEnabled ==> frameOut.pipe.stalled
      ensures !more && r == 0 ==> obufmark > old(obufmark) || error == 0 || error == ERR_WOULDBLOCK
      ensures !more && writeEnabled && frameOut.pipe.lively ==>
        Nearer(old(SView()), |old(frameOut.pipe.bytes)|, SView(), |frameOut.pipe.bytes|)
      ensures old(frameOut.pipe.bytes) <= frameOut.pipe.bytes
    {
      hide Inv, FrameOut.FrameSender.Valid, Work, FrameComplete, AtRest, CloseNoted, DataLength, Writing;
      hide Nearer;
      WritingOn();
      ghost var v, adv := SView(), SView();
      IoInRange(v);
      var m, data := omsg.value, obuf[obufmark..obuflimit];
      var io := FrameOut.Iocb(m.fin, 0, m.opcode, !cfg.server, opayloadlen, data);
      assert io.data == v.obuf[v.mark..];
      var code;
      code, adv := SendFrame(io);
      if Progressed(code) {
        CompleteByOffset(adv);
      }
      if code != FrameOut.OK {
        if !broken {
          StillWriting();
        }
        r := FrameFailed(code, v, adv);
        return false, r;
      }
      if obufmark != obuflimit {
        RestingBusy(adv);
        StillWriting();
        return false, 0;
      }
      SameWork(adv, v);
      if omsg.value.fin {
        RetireMsg(adv);
        RetireIsProgress(adv);
      } else {
        ContinueMsg(adv);
        NextFragmentIsProgress(adv);
      }
      return true, 0;
    }

    /** wslay_event_want_write: something is to be sent, and may be. */
    predicate WantWrite()
      reads this
    {
      writeEnabled && (sendQueue != [] || sendCtrlQueue != [] || omsg.Some?)
    }

    /** A round of the send loop: the message to go on with is chosen, and a frame of it is sent. */
    method SendRound() returns (more: bool, r: int)
      requires ValidSend() && AtRest(SView()) && WantWrite()
      modifies `error, `errorSet, `broken, `maskFailed, `writeEnabled, `opayloadoff, `obufmark, frameOut
      modifies frameOut.oheader, frameOut.pipe`bytes, frameOut.pipe`stalled, frameOut.pipe`overran
      modifies `omsg, `obuflimit, `queuedMsgCount, `queuedMsgLength, `opayloadlen, `starved, `sourceFailed
      modifies `hist, `ended, `faulted, obuf, `sendQueue, `sendCtrlQueue, `closeSent, `statusSent
      ensures ValidSend() && AtRest(SView()) && (r == 0 || (r == ERR_CALLBACK_FAILURE && !writeEnabled && !more))
      ensures more ==> Work(SView()) < Work(old(SView()))
      ensures (r != 0 ==> SendFault()) && (r == 0 && !writeEnabled ==> CloseNoted())
      ensures !more && writeEnabled ==> frameOut.pipe.stalled || (starved && AllEndedSent(SView()))
      ensures !more && writeEnabled && frameOut.pipe.lively ==>
        starved || Nearer(old(SView()), |old(frameOut.pipe.bytes)|, SView(), |frameOut.pipe.bytes|)
      ensures !broken ==> StillStuck(old(SView()), SView())
      ensures hist == old(hist).(discarded := hist.discarded) && old(ended) <= ended
      ensures old(frameOut.pipe.bytes) <= frameOut.pipe.bytes
    {
      hide Inv, FrameOut.FrameSender.Valid, Writing, Work, Choose, StillStuck, AllEndedSent, AtRest;
      hide CloseNoted, Stuck, IsControl;
      hide Nearer;
      ghost var v, sent := SView(), frameOut.pipe.bytes;
      ChooseKeeps(v);
      ControlGoesFirst(v);
      StuckChosen(v);
      ChooseMsg();
      ghost var w := SView();
      if omsg.value.Whole? {
        more, r := SendWhole();
      } else {
        more, r := SendFragment();
      }
      if !broken {
        StillStuckTrans(v, w, SView());
      }
      if !more && writeEnabled && frameOut.pipe.lively && !starved {
        NearerBefore(v, w, |sent|, SView(), |frameOut.pipe.bytes|);
      }
    }

    /** wslay_event_send: goes on until nothing is left, writing has ended, or a callback holds it up. */
    method EventSend() returns (r: int)
      requires ValidSend() && AtRest(SView())
      modifies `error, `errorSet, `broken, `maskFailed, `writeEnabled, `opayloadoff, `obufmark, frameOut
      modifies frameOut.oheader, frameOut.pipe`bytes, frameOut.pipe`stalled, frameOut.pipe`overran
      modifies `omsg, `obuflimit, `queuedMsgCount, `queuedMsgLength, `opayloadlen, `starved, `sourceFailed
      modifies `hist, `ended, `faulted, obuf, `sendQueue, `sendCtrlQueue, `closeSent, `statusSent
      ensures ValidSend() && AtRest(SView())
      ensures r == 0 || (r == ERR_CALLBACK_FAILURE && !writeEnabled && SendFault())
      ensures r == 0 && old(writeEnabled) && !writeEnabled ==> CloseNoted()
      ensures writeEnabled ==> old(writeEnabled)
      ensures !old(writeEnabled) ==> frameOut.pipe.bytes == old(frameOut.pipe.bytes)
      ensures writeEnabled && WantWrite() ==> frameOut.pipe.stalled || starved
      ensures writeEnabled && !frameOut.pipe.stalled ==> AllEndedSent(SView())
      ensures writeEnabled && !frameOut.pipe.stalled && !starved ==>
        sendQueue == [] && sendCtrlQueue == [] && omsg == None
      ensures !old(WantWrite()) ==>
        SView() == old(SView()) && frameOut.pipe.bytes == old(frameOut.pipe.bytes) && WantWrite() == old(WantWrite())
      ensures old(WantWrite()) && writeEnabled && frameOut.pipe.lively ==>
        starved || Nearer(old(SView()), |old(frameOut.pipe.bytes)|, SView(), |frameOut.pipe.bytes|)
      ensures !broken ==> StillStuck(old(SView()), SView())
      ensures hist == old(hist).(discarded := hist.discarded) && old(ended) <= ended
      ensures old(frameOut.pipe.bytes) <= frameOut.pipe.bytes
    {
      hide Inv, FrameOut.FrameSender.Valid, Writing, Work, StillStuck, AllEndedSent, AtRest, CloseNoted, SendFault;
      hide Nearer;
      frameOut.pipe.stalled, starved := false, false;
      var more := true;
      ghost var round := false;
      ghost var start := SView();
      StuckStays(start, start);
      while more && WantWrite()
        invariant ValidSend() && AtRest(SView()) && old(frameOut.pipe.bytes) <= frameOut.pipe.bytes
        invariant writeEnabled ==> old(writeEnabled)
        invariant old(writeEnabled) && !writeEnabled ==> CloseNoted()
        invariant old(writeEnabled) || frameOut.pipe.bytes == old(frameOut.pipe.bytes)
        invariant !more && writeEnabled ==> frameOut.pipe.stalled || (starved && AllEndedSent(SView()))
        invariant if round && more then Work(SView()) < Work(start) else !round ==> SView() == start && more
        invariant if round then old(WantWrite())
                  else frameOut.pipe.bytes == old(frameOut.pipe.bytes) && WantWrite() == old(WantWrite())
        invariant !more && writeEnabled && frameOut.pipe.lively ==>
          starved || Nearer(start, |old(frameOut.pipe.bytes)|, SView(), |frameOut.pipe.bytes|)
        invariant !broken ==> StillStuck(start, SView())
        invariant hist == old(hist).(discarded := hist.discarded) && old(ended) <= ended
        decreases more, Work(SView())
      {
        ghost var v, n := SView(), |frameOut.pipe.bytes|;
        more, r := SendRound();
        if !broken {
          StillStuckTrans(start, v, SView());
        }
        if round && !more && writeEnabled && frameOut.pipe.lively && !starved {
          NearerAfter(start, |old(frameOut.pipe.bytes)|, v, n, SView(), |frameOut.pipe.bytes|);
        }
        round := true;
        if r != 0 {
          return r;
        }
      }
      if !WantWrite() && writeEnabled {
        NoneLeftToEnd(SView());
      }
      if round && more {
        LessIsNearer(start, |old(frameOut.pipe.bytes)|, SView(), |frameOut.pipe.bytes|);
      }
      return 0;
    }

    // -- Receiving ---------------------------------------------------------

    /** The slot imsg points to. */
    function Imsg(): IMsg
      reads this
    {
      if second then slot1 else slot0
    }

    method SetImsg(m: IMsg)
      modifies `slot0, `slot1
      ensures RView() == SetSlot(old(RView()), m)
    {
      if second {
        slot1 := m;
      } else {
        slot0 := m;
      }
    }

    /** Reading has just stopped, with a Close of the library's own if one could be queued. */
    twostate lemma Stopped(answered: bool)
      requires old(RecvHistory()) && old(stop).Running? && !stop.Running? && !readEnabled
      requires unchanged(`processed, `delivered, `pongs, `readShut, frameIn.pipe)
      requires StopJustified() && InputParsed() && (IsQueueable() ==> old(IsQueueable()))
      requires if answered then !stop.CloseUnanswered? && (stop.Refused? ==> stop.verdict.Refuse?)
               else !stop.CloseTaken?
      requires hist.log ==
        if answered then old(hist.log) + [Logged(Msg(CLOSE, AnswerTo(stop)), true)] else old(hist.log)
      ensures RecvHistory() && Answered(hist.log) == answered
    {
      hide History, StopOk, ParseStream, Ahead, CloseMet, TailFine, AnswerTo, Replies, PongMsgs;
      RepliesStop(old(hist.log), pongs, stop, answered);
      NotAnswered(old(hist.log), pongs);
      if old(IsQueueable()) && !IsQueueable() {
        HistoryFreezes(cfg, processed, delivered, pongs);
      }
    }

    /** A frame is refused: reading ends, and a Close with the code is queued if that is still allowed. */
    method Refuse(code: nat, ghost h: Header, ghost got: seq<byte>, ghost text: seq<byte>, ghost cut: seq<seq<byte>>)
      returns (r: int)
      requires ValidSend() && RecvHistory() && stop.Running? && 0 < code < 0x1_0000 && Ahead(h, got)
      requires Judge(cfg, Assemble(processed).open, h, got, text) == Verdict.Refuse(code)
      requires JudgeHeader(cfg, Assemble(processed).open, h) == Fine ==> Pieces(h, got, text, cut)
      modifies `readEnabled, `queuedMsgCount, `queuedMsgLength, `hist, `closeQueued, `stop
      modifies `sendQueue, `sendCtrlQueue
      ensures ValidSend() && ValidRecv() && !readEnabled && stop == Refused(Verdict.Refuse(code), h, got, text, cut)
      ensures r == (if old(IsQueueable()) then 0 else 1) && r == EndCode()
      ensures SView() == if r == 0 then CloseWith(old(SView()), BigEndian(code, 2), true) else old(SView())
      ensures hist.accepted == old(hist.accepted) && sendQueue == old(sendQueue)
      ensures AtRest(old(SView())) ==> AtRest(SView())
    {
      hide ValidSend, SView, AtRest, History, Judge, JudgeHeader, ParseStream, Assemble, Ahead, Pieces;
      hide RepliesOk, CloseLast, StopOk, CloseWith, BigEndian;
      hide TailFine, CloseMet, CloseChecked;
      stop := Refused(Verdict.Refuse(code), h, got, text, cut);
      RefusalOk(cfg, processed, stop);
      r := QueueCloseWrapper(code, []);
      assert BigEndian(code, 2) + [] == BigEndian(code, 2);
      Stopped(r == 0);
    }

    /** The slot for a frame, by its opcode; ok tells that the opcode is in turn. */
    method SelectSlot(io: FrameIn.Iocb) returns (ok: bool, ghost open: Option<Msg>)
      requires Mirrors(RView(), processed, FrameIn.NoFrame, checked)
      modifies `slot0, `slot1, `second
      ensures open == Assemble(processed).open && ok == InTurn(open, io.opcode)
      ensures !ok ==> RView() == old(RView())
      ensures forall h: Header | FrameIn.Describes(io, h) :: ok ==> RView() == Select(old(RView()), open, h)
    {
      hide Assemble, Holds, Empty;
      open := Assemble(processed).open;
      HoldsOpcode(cfg, open, slot0);
      if slot0.opcode == NO_OPCODE {
        if io.opcode == TEXT || io.opcode == BINARY || io.opcode == CLOSE || io.opcode == PING || io.opcode == PONG {
          slot0 := slot0.(fin := io.fin, rsv := io.rsv, opcode := io.opcode, msgLength := 0);
        } else {
          return false, open;
        }
      } else if io.opcode == CONTINUATION {
        slot0 := slot0.(fin := io.fin);
      } else if io.opcode == CLOSE || io.opcode == PING || io.opcode == PONG {
        second := true;
        slot1 := slot1.(fin := io.fin, rsv := io.rsv, opcode := io.opcode, msgLength := 0);
      } else {
        return false, open;
      }
      return true, open;
    }

    /** Room for the payload, if it is to be kept; fails when the message would exceed a 64-bit length. */
    method AdmitFrame(io: FrameIn.Iocb) returns (ok: bool)
      modifies `slot0, `slot1, `ipayloadlen
      ensures ok <==> !(Buffered(cfg, io.opcode) && io.payloadLength > 0
                        && old(Imsg()).msgLength + io.payloadLength >= COUNTER_LIMIT)
      ensures forall h: Header | FrameIn.Describes(io, h) :: ok ==>
        RView() == Admit(old(RView()), h, seq(h.len, _ => 0))
    {
      ipayloadlen := io.payloadLength;
      if Buffered(cfg, io.opcode) {
        var m := Imsg();
        if io.payloadLength > 0 && m.msgLength + io.payloadLength >= COUNTER_LIMIT {
          return false;
        }
        SetImsg(AppendChunk(m, io.payloadLength, seq(io.payloadLength, _ => 0)));
      }
      return true;
    }

    /** Reading ends because a buffer could not be had. */
    method OutOfMemory(ghost h: Header, ghost got: seq<byte>)
      requires RecvHistory() && stop.Running? && Ahead(h, got)
      requires JudgeHeader(cfg, Assemble(processed).open, h) == Verdict.OutOfMemory
      modifies `readEnabled, `stop
      ensures ValidRecv() && !readEnabled && stop == Refused(Verdict.OutOfMemory, h, got, [], [])
    {
      hide History, JudgeHeader, ParseStream, Assemble, Ahead, RepliesOk, CloseLast, TailFine, CloseMet, CloseChecked;
      JudgeByHeader(cfg, Assemble(processed).open, h, got, []);
      hide Judge;
      readEnabled, stop := false, Refused(Verdict.OutOfMemory, h, got, [], []);
      Stopped(false);
    }

    /** Opcode and size of a new frame, and its slot: the verdict on a header that is unextended and masked as due. */
    method PlaceFrame(io: FrameIn.Iocb, ghost h: PrintableHeader) returns (verdict: Verdict)
      requires Mirrors(RView(), processed, FrameIn.NoFrame, checked)
      requires FrameIn.Describes(io, h) && h.rsv == 0 && h.key.Some? == cfg.server
      modifies `slot0, `slot1, `second, `ipayloadlen
      ensures verdict == JudgeHeader(cfg, Assemble(processed).open, h)
      ensures (verdict.Refuse? ==> 0 < verdict.code < 0x1_0000)
      ensures verdict == Fine ==> MidFrame(RView(), Assemble(processed).open, h, [], [])
    {
      hide Assemble, MidFrame, Holds, Empty, Announced, Buffered;
      ghost var v, open := RView(), Assemble(processed).open;
      SelectTest(v, open, h);
      HeaderTests(cfg, open, h, Slot(Select(v, open, h)).msgLength);
      hide Select, InTurn, JudgeHeader;
      var ok;
      ok, open := SelectSlot(io);
      if !ok {
        return Verdict.Refuse(PROTOCOL_ERROR);
      }
      if (Imsg().msgLength + io.payloadLength) % COUNTER_LIMIT > cfg.maxLength {
        return Verdict.Refuse(TOO_BIG);
      }
      ok := AdmitFrame(io);
      if !ok {
        return Verdict.OutOfMemory;
      }
      AdmitReady(v, open, h, seq(h.len, _ => 0));
      return Fine;
    }

    /** A frame is refused for its header, or there is no room for it. */
    method RefuseHeader(verdict: Verdict, ghost h: PrintableHeader, ghost got: seq<byte>) returns (r: int)
      requires ValidSend() && RecvHistory() && stop.Running? && Ahead(h, got)
      requires verdict == JudgeHeader(cfg, Assemble(processed).open, h) != Fine
      requires verdict.Refuse? ==> 0 < verdict.code < 0x1_0000
      modifies `readEnabled, `queuedMsgCount, `queuedMsgLength, `hist, `closeQueued, `stop
      modifies `sendQueue, `sendCtrlQueue
      ensures ValidSend() && ValidRecv() && !readEnabled && r == EndCode()
      ensures stop == Refused(JudgeHeader(cfg, Assemble(processed).open, h), h, got, [], [])
      ensures hist.accepted == old(hist.accepted) && sendQueue == old(sendQueue)
      ensures AtRest(old(SView())) ==> AtRest(SView())
    {
      hide ValidSend, SView, RecvHistory, Ahead, ValidRecv, AtRest, Assemble, JudgeHeader, Judge;
      if verdict == Verdict.OutOfMemory {
        OutOfMemory(h, got);
        return -1;
      }
      JudgeByHeader(cfg, Assemble(processed).open, h, got, []);
      r := Refuse(verdict.code, h, got, [], []);
    }

    /** A new frame gets its slot, or is refused. */
    method NewFrame(io: FrameIn.Iocb, ghost h: PrintableHeader, ghost got: seq<byte>) returns (ok: bool, r: int)
      requires ValidSend() && RecvHistory() && stop.Running? && readEnabled && Ahead(h, got)
      requires Mirrors(RView(), processed, FrameIn.NoFrame, checked)
      requires FrameIn.Describes(io, h) && h.rsv == 0 && h.key.Some? == cfg.server
      modifies `slot0, `slot1, `second, `ipayloadlen, `checked, `pieces
      modifies `readEnabled, `queuedMsgCount, `queuedMsgLength, `hist, `closeQueued, `stop
      modifies `sendQueue, `sendCtrlQueue
      ensures ValidSend() && (ok ==> RecvHistory())
      ensures ok ==> MidFrame(RView(), Assemble(processed).open, h, [], []) && checked == [] && pieces == []
      ensures ok ==> stop.Running? && readEnabled
      ensures hist.accepted == old(hist.accepted) && sendQueue == old(sendQueue)
      ensures AtRest(old(SView())) ==> AtRest(SView())
      ensures ok ==> SView() == old(SView())
      ensures !ok ==> ValidRecv() && !readEnabled && r == EndCode()
      ensures !ok ==> stop == Refused(JudgeHeader(cfg, Assemble(processed).open, h), h, got, [], [])
    {
      hide ValidSend, SView, RecvHistory, Ahead, RView, ValidRecv, AtRest, Assemble, MidFrame, Mirrors;
      hide JudgeHeader, Judge, FrameIn.Describes;
      var verdict := PlaceFrame(io, h);
      checked, pieces := [], [];
      if verdict == Fine {
        return true, 0;
      }
      r := RefuseHeader(verdict, h, got);
      return false, r;
    }

    /** The bytes of a chunk that must be text go through the automaton, up to a rejection. */
    method RunText(data: seq<byte>)
      modifies `slot0, `slot1
      ensures RView() == CheckText(old(RView()), data)
    {
      hide Utf8.NextState, Utf8.NextCode;
      var m := Imsg();
      var state, codep := m.utf8, 0;
      if m.opcode == TEXT || m.opcode == CLOSE {
        var i := if m.opcode == CLOSE then 2 else 0;
        ghost var part := TextPart(m.opcode, data);
        ghost var start := i;
        while i < |data|
          invariant RView() == old(RView()) && start <= i && (i <= |data| || part == [])
          invariant i <= |data| ==> part == data[start..]
          invariant Utf8.Run(m.utf8, part) == Utf8.Run(state, if i <= |data| then data[i..] else [])
        {
          assert data[i..][1..] == data[i + 1..];
          state, codep := Utf8.Decode(state, codep, data[i]);
          i := i + 1;
          assert Utf8.Run(m.utf8, part) == Utf8.Run(state, data[i..]);
          if state == Utf8.UTF8_REJECT {
            Utf8.RejectAbsorbs(data[i..]);
            break;
          }
        }
      }
      SetImsg(m.(utf8 := state));
    }

    /** The chunk is copied behind the payload received before. */
    method StoreChunk(io: FrameIn.Iocb, ghost h: Header)
      requires h.opcode == io.opcode
      requires io.data != [] && Buffered(cfg, io.opcode) ==>
        Imsg().chunks != [] && ipayloadoff + |io.data| <= |Imsg().chunks[|Imsg().chunks| - 1]|
      modifies `slot0, `slot1, `ipayloadoff
      ensures RView() == Store(old(RView()), h, io.data)
    {
      if io.data != [] {
        if Buffered(cfg, io.opcode) {
          var m := Imsg();
          var k := |m.chunks| - 1;
          SetImsg(m.(chunks := m.chunks[k := Overwrite(m.chunks[k], ipayloadoff, io.data)]));
        }
        ipayloadoff := ipayloadoff + |io.data|;
      }
    }

    /** wslay_event_flatten_queue: the chunks in one buffer; every copy is in bounds. */
    static method FlattenQueue(chunks: seq<seq<byte>>, len: nat) returns (buf: seq<byte>)
      requires |Flatten(chunks)| == len
      ensures buf == Flatten(chunks)
    {
      if len == 0 {
        return [];
      }
      var out := new byte[len](_ => 0);
      var off, i := 0, 0;
      assert chunks[..0] == [];
      while i < |chunks|
        invariant 0 <= i <= |chunks| && 0 <= off <= len && out[..off] == Flatten(chunks[..i])
      {
        assert chunks[..i + 1] == chunks[..i] + [chunks[i]];
        FlattenSnoc(chunks[..i], chunks[i]);
        FlattenPrefix(chunks, i + 1);
        forall j | 0 <= j < |chunks[i]| {
          out[off + j] := chunks[i][j];
        }
        off := off + |chunks[i]|;
        i := i + 1;
      }
      assert chunks[..i] == chunks;
      return out[..];
    }

    /** Reading is on if it was, and has not been shut down since. */
    ghost predicate ReadsUnlessShut(wasEnabled: bool, wasShut: bool)
      reads `readEnabled, `readShut
    {
      && (readEnabled ==> wasEnabled) && (wasShut ==> readShut)
      && (if readEnabled then readShut == wasShut else wasEnabled ==> readShut)
    }

    /** What the application may do at any time: queue something, or shut down a direction. */
    method ApplicationActs()
      requires ValidSend()
      modifies `readEnabled, `readShut, `writeEnabled, `writeShut, `queuedMsgCount, `queuedMsgLength, `hist
      modifies `closeQueued
      modifies `sendQueue, `sendCtrlQueue
      ensures ValidSend() && (IsQueueable() ==> old(IsQueueable())) && ReadsUnlessShut(old(readEnabled), old(readShut))
      ensures old(hist.accepted) <= hist.accepted && old(sendQueue) <= sendQueue
      ensures AtRest(old(SView())) ==> AtRest(SView())
      ensures Replies(hist.log) == Replies(old(hist.log))
      ensures hist.log == old(hist.log) || (old(IsQueueable()) && !Answered(hist.log))
    {
      hide Inv, SendObjects, Writing, Replies;
      if * {
        ApplicationQueues();
      } else if * {
        readEnabled, readShut := false, true;
      } else if * {
        ShutdownWrite();
      }
    }

    /** The application queues a message, or a Close. */
    method ApplicationQueues()
      requires ValidSend()
      modifies `queuedMsgCount, `queuedMsgLength, `hist, `closeQueued, `sendQueue, `sendCtrlQueue
      ensures ValidSend() && (IsQueueable() ==> old(IsQueueable()))
      ensures old(hist.accepted) <= hist.accepted && old(sendQueue) <= sendQueue
      ensures AtRest(old(SView())) ==> AtRest(SView())
      ensures Replies(hist.log) == Replies(old(hist.log))
      ensures hist.log == old(hist.log) || (old(IsQueueable()) && !Answered(hist.log))
    {
      hide Inv, SendObjects, Writing, Replies;
      var action: int, opcode: nat, status: nat := *, *, *;
      var bytes: seq<byte> := *;
      var r: int;
      if action == 0 && (IsDataOpcode(opcode) || IsCtrlOpcode(opcode)) {
        RepliesSnoc(hist.log, Logged(Msg(opcode, bytes), false));
        r := QueueMsg(opcode, bytes);
      } else if action == 1 && (IsDataOpcode(opcode) || IsControl(opcode)) {
        r := QueueFragmentedMsg(opcode, bytes);
      } else if action == 2 && status < 0x1_0000 {
        RepliesSnoc(hist.log, Logged(Msg(CLOSE, ClosePayload(status, bytes)), false));
        r := QueueClose(status, bytes);
      }
    }

    /** The message callback with its arguments: the application may act any number of times. */
    method RunCallback(opcode: nat, msg: seq<byte>, status: nat)
      requires ValidSend() && Receiving(delivered + [Delivery(opcode, msg, status)], pongs)
      modifies `delivered, `readEnabled, `readShut, `writeEnabled, `writeShut, `error, `errorSet
      modifies `queuedMsgCount, `queuedMsgLength
      modifies `hist, `closeQueued
      modifies `sendQueue, `sendCtrlQueue
      ensures ValidSend() && RecvHistory() && (readEnabled ==> old(readEnabled))
      ensures delivered == old(delivered) + [Delivery(opcode, msg, status)] && error == 0
      ensures old(hist.accepted) <= hist.accepted && old(sendQueue) <= sendQueue
      ensures AtRest(old(SView())) ==> AtRest(SView())
    {
      hide ValidSend, SView, AtRest, Receiving;
      delivered := delivered + [Delivery(opcode, msg, status)];
      ClearError();
      ApplicationTurn();
    }

    /** The application's turn leaves what was received intact. */
    method ApplicationTurn()
      requires ValidSend() && RecvHistory()
      modifies `readEnabled, `readShut, `writeEnabled, `writeShut, `queuedMsgCount, `queuedMsgLength
      modifies `hist, `closeQueued
      modifies `sendQueue, `sendCtrlQueue
      ensures ValidSend() && RecvHistory() && (readEnabled ==> old(readEnabled))
      ensures old(hist.accepted) <= hist.accepted && old(sendQueue) <= sendQueue
      ensures AtRest(old(SView())) ==> AtRest(SView())
    {
      hide ValidSend, SView, AtRest, History, StopOk, ParseStream, Ahead, CloseMet, TailFine, Replies, CloseLast;
      ApplicationRuns();
      RepliesApart(old(hist.log), hist.log, pongs, stop);
      if old(IsQueueable()) && !IsQueueable() {
        HistoryFreezes(cfg, processed, delivered, pongs);
      }
    }

    /** Any number of such acts. */
    method ApplicationRuns()
      requires ValidSend()
      modifies `readEnabled, `readShut, `writeEnabled, `writeShut, `queuedMsgCount, `queuedMsgLength, `hist
      modifies `closeQueued
      modifies `sendQueue, `sendCtrlQueue
      ensures ValidSend() && (IsQueueable() ==> old(IsQueueable())) && ReadsUnlessShut(old(readEnabled), old(readShut))
      ensures old(hist.accepted) <= hist.accepted && old(sendQueue) <= sendQueue
      ensures AtRest(old(SView())) ==> AtRest(SView())
      ensures Replies(hist.log) == Replies(old(hist.log))
      ensures hist.log == old(hist.log) || (old(IsQueueable()) && !Answered(hist.log))
    {
      hide Inv, FrameOut.FrameSender.Valid, Writing, SView, AtRest, Replies;
      var n: int := *;
      while n > 0
        invariant ValidSend() && (IsQueueable() ==> old(IsQueueable()))
        invariant ReadsUnlessShut(old(readEnabled), old(readShut))
        invariant Replies(hist.log) == Replies(old(hist.log))
        invariant hist.log == old(hist.log) || (old(IsQueueable()) && !Answered(hist.log))
        invariant old(hist.accepted) <= hist.accepted && old(sendQueue) <= sendQueue
        invariant AtRest(old(SView())) ==> AtRest(SView())
      {
        ApplicationActs();
        n := n - 1;
      }
    }

    /** A Close with status and reason, or one without: it is answered in kind, and reading ends. */
    method HandleClose(ghost h: PrintableHeader, ghost payload: seq<byte>, msg: seq<byte>)
      returns (more: bool, r: int, status: nat)
      requires ValidSend() && RecvHistory() && stop.Running? && readEnabled && msg == payload && |payload| <= 125
      requires Ahead(h, payload) && Pieces(h, payload, checked, pieces)
      requires h.opcode == CLOSE && h.fin && h.len == |payload| && JudgeHeader(cfg, Assemble(processed).open, h) == Fine
      requires JudgeContent(Assemble(processed).open, h, payload, checked) ==
        if |payload| >= 2 && !ValidStatus(StatusOf(payload)) then Verdict.Refuse(PROTOCOL_ERROR) else Fine
      modifies `closeReceived, `statusRecv
      modifies `readEnabled, `queuedMsgCount, `queuedMsgLength, `hist, `closeQueued, `stop
      modifies `sendQueue, `sendCtrlQueue
      ensures ValidSend() && RecvHistory() && !readEnabled && r == EndCode()
      ensures status == StatusOf(payload)
      ensures hist.accepted == old(hist.accepted) && sendQueue == old(sendQueue)
      ensures AtRest(old(SView())) ==> AtRest(SView())
      ensures more ==> r == 0 && (|payload| >= 2 ==> ValidStatus(status)) && old(IsQueueable())
      ensures more ==> stop == CloseTaken(payload, pieces) && CloseMet(h, payload, pieces)
      ensures more ==> SView() == CloseWith(old(SView()), if |payload| >= 2 then payload else [], true)
      ensures !more && (|payload| >= 2 ==> ValidStatus(status)) ==>
        r == 1 && stop == CloseUnanswered(h, payload, pieces) && !old(IsQueueable()) && SView() == old(SView())
      ensures !more && |payload| >= 2 && !ValidStatus(status) ==>
        stop == Refused(Verdict.Refuse(PROTOCOL_ERROR), h, payload, checked, pieces)
    {
      hide ValidSend, SView, RecvHistory, Ahead, AtRest, Assemble, JudgeHeader, JudgeContent, CloseChecked;
      hide CloseMet, Pieces;
      hide StatusOf;
      status := 0;
      var reason := [];
      ReadStatus(payload);
      if |msg| >= 2 {
        status := FromBigEndian(msg[..2]);
        if !ValidStatus(status) {
          JudgeWhole(cfg, Assemble(processed).open, h, payload, checked);
          r := Refuse(PROTOCOL_ERROR, h, payload, checked, pieces);
          return false, r, status;
        }
        reason := msg[2..];
      }
      FineClose(Assemble(processed).open, h, payload, checked, pieces);
      r := AnswerClose(status, reason, h, payload);
      return r == 0, r, status;
    }

    /** CLOSE_RECEIVED and the status received. */
    method NoteCloseReceived(status: nat, ghost h: Header, ghost payload: seq<byte>)
      requires CloseChecked(h, payload, pieces) && |payload| == h.len && status == StatusOf(payload)
      modifies `closeReceived, `statusRecv
      ensures CloseMet(h, payload, pieces) && closeReceived
    {
      hide StatusOf, CloseChecked;
      closeReceived, statusRecv := true, if status == 0 then NO_STATUS_RCVD else status;
    }

    /** A Close is put on record as received, and echoed if one may be queued. */
    method EchoClose(status: nat, reason: seq<byte>, ghost h: Header, ghost payload: seq<byte>) returns (r: int)
      requires ValidSend() && status < 0x1_0000 && |reason| <= 123
      requires CloseChecked(h, payload, pieces) && |payload| == h.len && status == StatusOf(payload)
      modifies `closeReceived, `statusRecv
      modifies `readEnabled, `queuedMsgCount, `queuedMsgLength, `hist, `closeQueued
      modifies `sendQueue, `sendCtrlQueue
      ensures ValidSend() && !readEnabled && CloseMet(h, payload, pieces) && closeReceived
      ensures r == (if old(IsQueueable()) then 0 else 1) && !IsQueueable()
      ensures SView() == if r == 0 then CloseWith(old(SView()), ClosePayload(status, reason), true) else old(SView())
      ensures hist.log ==
        if r == 0 then old(hist.log) + [Logged(Msg(CLOSE, ClosePayload(status, reason)), true)] else old(hist.log)
      ensures hist.accepted == old(hist.accepted) && sendQueue == old(sendQueue)
      ensures AtRest(old(SView())) ==> AtRest(SView())
    {
      hide ValidSend, SView, AtRest, StatusOf, ClosePayload, CloseWith, CloseChecked, CloseMet;
      NoteCloseReceived(status, h, payload);
      r := QueueCloseWrapper(status, reason);
    }

    /** The answer to a received Close. */
    method AnswerClose(status: nat, reason: seq<byte>, ghost h: PrintableHeader, ghost payload: seq<byte>)
      returns (r: int)
      requires ValidSend() && RecvHistory() && stop.Running? && status < 0x1_0000 && |reason| <= 123
      requires CloseChecked(h, payload, pieces) && |payload| == h.len && status == StatusOf(payload)
      requires Ahead(h, payload)
      requires FineFrame(cfg, Assemble(processed).open, Received(h, payload))
      requires ClosePayload(status, reason) == if |payload| >= 2 then payload else []
      modifies `closeReceived, `statusRecv
      modifies `readEnabled, `queuedMsgCount, `queuedMsgLength, `hist, `closeQueued, `stop
      modifies `sendQueue, `sendCtrlQueue
      ensures ValidSend() && RecvHistory() && !readEnabled && CloseMet(h, payload, pieces)
      ensures r == (if old(IsQueueable()) then 0 else 1) && r == EndCode()
      ensures stop == if r == 0 then CloseTaken(payload, pieces) else CloseUnanswered(h, payload, pieces)
      ensures SView() == if r == 0 then CloseWith(old(SView()), ClosePayload(status, reason), true) else old(SView())
      ensures hist.accepted == old(hist.accepted) && sendQueue == old(sendQueue)
      ensures AtRest(old(SView())) ==> AtRest(SView())
    {
      hide ValidSend, SView, AtRest, History, ParseStream, Ahead, RepliesOk, CloseLast, TailFine, CloseMet;
      hide StatusOf, StopOk, FineFrame, Assemble;
      hide ClosePayload, CloseWith, NextIn, CloseChecked;
      r := EchoClose(status, reason, h, payload);
      stop := if r == 0 then CloseTaken(payload, pieces) else CloseUnanswered(h, payload, pieces);
      NoRefusal(cfg, processed, stop);
      Stopped(r == 0);
    }

    /** One more frame counts as processed, with what was delivered and answered for it. */
    ghost method Record(h: PrintableHeader, payload: seq<byte>, news: seq<Delivery>, newPongs: seq<seq<byte>>)
      requires Receiving(delivered, newPongs) && WellFormed(h)
      requires FineFrame(cfg, Assemble(processed).open, Received(h, payload))
      requires processed + [Received(h, payload)] <= ParseStream(frameIn.Fed()).frames
      requires stop.Running? || stop.CloseTaken?
      requires CloseLast(processed, false) && (h.opcode == CLOSE ==> stop.CloseTaken?)
      requires news == if h.fin then [Deliver(cfg.buffering, Completed(Assemble(processed).open, h, payload))] else []
      requires newPongs == if IsQueueable() && h.fin && Completed(Assemble(processed).open, h, payload).opcode == PING
                           then pongs + [Completed(Assemble(processed).open, h, payload).payload] else pongs
      modifies `processed, `pongs
      ensures Receiving(delivered + news, pongs) && processed == old(processed) + [Received(h, payload)]
      ensures pongs == newPongs
      ensures Assemble(processed).open == NextOpen(Assemble(old(processed)).open, h, payload)
    {
      hide History, Assemble, ParseStream, FineFrame, Deliver, Completed, NextOpen, StopOk, Ahead, TailFine;
      hide CloseMet, RepliesOk;
      hide CloseLast;
      HistoryGrows(cfg, processed, delivered, pongs, IsQueueable(), h, payload, newPongs, IsQueueable());
      CloseLastSnoc(processed, Received(h, payload), stop.CloseTaken?);
      NoRefusal(cfg, processed + [Received(h, payload)], stop);
      pongs, processed := newPongs, processed + [Received(h, payload)];
    }

    /** The library's own answer to a complete message: a Close to a Close, a pong to a ping. */
    method Reply(ghost h: PrintableHeader, ghost payload: seq<byte>, opcode: nat, msg: seq<byte>)
      returns (more: bool, r: int, status: nat, ghost newPongs: seq<seq<byte>>)
      requires ValidSend() && RecvHistory() && stop.Running? && readEnabled && WellFormed(h) && h.len == |payload|
      requires Ahead(h, payload) && Pieces(h, payload, checked, pieces)
      requires h.fin && JudgeHeader(cfg, Assemble(processed).open, h) == Fine
      requires JudgeContent(Assemble(processed).open, h, payload, checked) == StatusVerdict(h, payload)
      requires h.opcode != CLOSE ==> JudgeContent(Assemble(processed).open, h, payload, []) == Fine
      requires opcode == MessageOpcode(Assemble(processed).open, h) && (IsControl(h.opcode) ==> msg == payload)
      requires Assemble(processed).open.Some? ==> IsDataOpcode(Assemble(processed).open.value.opcode)
      modifies `closeReceived, `statusRecv
      modifies `readEnabled, `queuedMsgCount, `queuedMsgLength, `hist, `closeQueued, `stop
      modifies `sendQueue, `sendCtrlQueue
      ensures ValidSend() && (if more then Receiving(delivered, newPongs) else RecvHistory())
      ensures hist.accepted == old(hist.accepted) && sendQueue == old(sendQueue)
      ensures !more ==> !readEnabled && !stop.CloseTaken? && r == EndCode()
      ensures more ==> status == if opcode == CLOSE then StatusOf(payload) else 0
      ensures more ==> r == 0 && (stop.Running? || stop.CloseTaken?)
      ensures more ==> FineFrame(cfg, Assemble(processed).open, Received(h, payload))
      ensures more ==> newPongs == if IsQueueable() && Completed(Assemble(processed).open, h, payload).opcode == PING
                then pongs + [Completed(Assemble(processed).open, h, payload).payload] else pongs
      ensures more ==> SView() == Replied(old(SView()), opcode, payload)
      ensures more && opcode != CLOSE ==> stop.Running? && readEnabled
      ensures more && opcode == CLOSE ==> stop == CloseTaken(payload, pieces) && CloseMet(h, payload, pieces)
      ensures RView() == old(RView())
      ensures AtRest(old(SView())) ==> AtRest(SView())
    {
      hide ValidSend, Receiving, Ahead, Pieces, CloseMet, Assemble, JudgeHeader, JudgeContent, RView;
      hide FineFrame, Completed;
      hide MessageOpcode;
      hide StatusOf, ValidStatus, AtRest;
      AcceptedFrame(cfg, Assemble(processed).open, h, payload);
      more, r, status, newPongs := true, 0, 0, pongs;
      if opcode == CLOSE {
        more, r, status := HandleClose(h, payload, msg);
        return;
      }
      if opcode == PING {
        newPongs := AnswerPing(msg);
        r := 0;
      }
    }

    /** A pong to a ping; the queue takes it whenever it takes anything, for a ping holds at most 125 bytes. */
    method AnswerPing(msg: seq<byte>) returns (ghost newPongs: seq<seq<byte>>)
      requires ValidSend() && RecvHistory() && stop.Running? && |msg| <= 125
      modifies `queuedMsgCount, `queuedMsgLength, `hist, `sendQueue, `sendCtrlQueue
      ensures ValidSend() && Receiving(delivered, newPongs)
      ensures hist.accepted == old(hist.accepted) && sendQueue == old(sendQueue)
      ensures RView() == old(RView()) && newPongs == if IsQueueable() then pongs + [msg] else pongs
      ensures SView() == Replied(old(SView()), PING, msg) && (AtRest(old(SView())) ==> AtRest(SView()))
    {
      hide ValidSend, RView, History, StopOk, ParseStream, Ahead, TailFine, CloseMet, RepliesOk, CloseLast;
      newPongs := pongs;
      var r := QueueMsg(PONG, msg, true);
      assert r == 0 || r == ERR_NO_MORE_MSG;
      if r == 0 {
        RepliesPong(old(hist.log), pongs, msg);
        newPongs := pongs + [msg];
      }
    }

    /** The frame under way is complete, and its verdict so far is on record. */
    ghost predicate AtFrameEnd(h: PrintableHeader, payload: seq<byte>)
      reads `slot0, `slot1, `second, `ipayloadlen, `ipayloadoff, `processed, `checked, `pieces, `stop, `readEnabled
      reads frameIn, frameIn.ibuf, frameIn.pipe
    {
      && WellFormed(h) && h.len == |payload|
      && MidFrame(RView(), Assemble(processed).open, h, payload, checked)
      && stop.Running? && readEnabled && Pieces(h, payload, checked, pieces)
      && frameIn.Valid() && frameIn.frames == processed + [Received(h, payload)] && frameIn.cur == FrameIn.NoFrame
    }

    /** The message in the slot, in one piece; nothing if it was not buffered. */
    method TakeMessage(ghost open: Option<Msg>, ghost h: PrintableHeader, ghost payload: seq<byte>)
      returns (msg: seq<byte>)
      requires MidFrame(RView(), open, h, payload, checked) && |payload| == h.len
      requires open.Some? ==> IsDataOpcode(open.value.opcode)
      ensures msg == if Buffered(cfg, h.opcode) then Before(open, h) + payload else []
    {
      msg := [];
      BufferedKind(open, h, cfg);
      if Buffered(cfg, Imsg().opcode) {
        FlattenedPayload(RView(), open, h, payload, checked);
        hide MidFrame;
        msg := FlattenQueue(Imsg().chunks, Imsg().msgLength);
      }
    }

    /** The slot is freed and slot 0 is current again. */
    method ResetImsg()
      modifies `slot0, `slot1, `second
      ensures RView() == Reset(old(RView()))
    {
      SetImsg(Imsg().(opcode := NO_OPCODE, utf8 := Utf8.UTF8_ACCEPT, chunks := []));
      second := false;
    }

    /** The message callback gets the message; then its slot is freed. */
    method Conclude(opcode: nat, msg: seq<byte>, status: nat, ghost h: PrintableHeader, ghost payload: seq<byte>,
                    ghost newPongs: seq<seq<byte>>)
      requires ValidSend() && Receiving(delivered, newPongs) && (stop.Running? || stop.CloseTaken?)
      requires CloseLast(processed, false) && (h.opcode == CLOSE ==> stop.CloseTaken?)
      requires WellFormed(h) && h.fin && FineFrame(cfg, Assemble(processed).open, Received(h, payload))
      requires processed + [Received(h, payload)] <= ParseStream(frameIn.Fed()).frames
      requires Delivery(opcode, msg, status) == Deliver(cfg.buffering, Completed(Assemble(processed).open, h, payload))
      requires newPongs == if IsQueueable() && Completed(Assemble(processed).open, h, payload).opcode == PING
                           then pongs + [Completed(Assemble(processed).open, h, payload).payload] else pongs
      requires Boundary(EndFrame(Reset(RView())), NextOpen(Assemble(processed).open, h, payload))
      modifies `slot0, `slot1, `second, `processed, `delivered, `pongs, `error, `errorSet
      modifies `readEnabled, `readShut, `writeEnabled, `writeShut, `queuedMsgCount, `queuedMsgLength, `hist
      modifies `closeQueued
      modifies `sendQueue, `sendCtrlQueue
      ensures ValidSend() && RecvHistory() && old(hist.accepted) <= hist.accepted && old(sendQueue) <= sendQueue
      ensures AtRest(old(SView())) ==> AtRest(SView())
      ensures processed == old(processed) + [Received(h, payload)] && (readEnabled ==> old(readEnabled))
      ensures delivered == old(delivered) + [Delivery(opcode, msg, status)]
      ensures Boundary(EndFrame(RView()), Assemble(processed).open)
    {
      hide *;
      Record(h, payload, [Delivery(opcode, msg, status)], newPongs);
      RunCallback(opcode, msg, status);
      ResetImsg();
    }

    /** The message of a final frame is answered and delivered. */
    method AnswerAndConclude(opcode: nat, msg: seq<byte>, ghost h: PrintableHeader, ghost payload: seq<byte>)
      returns (more: bool, r: int)
      requires ValidSend() && RecvHistory() && AtFrameEnd(h, payload) && h.fin && Ahead(h, payload)
      requires JudgeContent(Assemble(processed).open, h, payload, checked) == StatusVerdict(h, payload)
      requires h.opcode != CLOSE ==> JudgeContent(Assemble(processed).open, h, payload, []) == Fine
      requires opcode == Imsg().opcode
      requires msg == if Buffered(cfg, h.opcode) then Before(Assemble(processed).open, h) + payload else []
      modifies `closeReceived, `statusRecv, `slot0, `slot1, `second, `processed, `delivered, `pongs, `error, `errorSet
      modifies `readEnabled, `readShut, `writeEnabled, `writeShut, `queuedMsgCount, `queuedMsgLength, `hist
      modifies `closeQueued
      modifies `stop
      modifies `sendQueue, `sendCtrlQueue
      ensures ValidSend() && RecvHistory() && old(hist.accepted) <= hist.accepted && old(sendQueue) <= sendQueue
      ensures AtRest(old(SView())) ==> AtRest(SView())
      ensures old(processed) <= processed && old(delivered) <= delivered
      ensures !more ==> !readEnabled && r == EndCode()
      ensures CloseRecorded() && (more ==> stop.Running? || stop.CloseTaken?)
      ensures more ==> processed == old(processed) + [Received(h, payload)]
      ensures more ==>
        delivered == old(delivered) + [Deliver(cfg.buffering, Completed(Assemble(old(processed)).open, h, payload))]
      ensures more ==> r == 0 && processed == frameIn.frames && Boundary(EndFrame(RView()), Assemble(processed).open)
    {
      hide *;
      EndFacts(h, payload);
      ghost var open := Assemble(processed).open;
      RunningNoClose();
      ghost var newPongs;
      var status;
      more, r, status, newPongs := Reply(h, payload, opcode, msg);
      if !more {
        NoCloseTaken();
        return;
      }
      DeliveryMeant(cfg, open, h, payload, opcode, msg, status);
      Conclude(opcode, msg, status, h, payload, newPongs);
      CloseIsRecorded(h, payload);
    }

    lemma CloseIsRecorded(h: PrintableHeader, payload: seq<byte>)
      requires processed != [] && processed[|processed| - 1] == Received(h, payload)
      requires stop.CloseTaken? ==> stop.payload == payload && CloseMet(h, payload, stop.pieces)
      ensures CloseRecorded()
    {
    }

    lemma NoCloseTaken()
      requires !stop.CloseTaken?
      ensures CloseRecorded()
    {
    }

    /** The message in the slot, complete: it is answered, delivered, and its slot is freed. */
    method CompleteMessage(ghost h: PrintableHeader, ghost payload: seq<byte>) returns (more: bool, r: int)
      requires ValidSend() && RecvHistory() && AtFrameEnd(h, payload) && h.fin && Ahead(h, payload)
      requires JudgeContent(Assemble(processed).open, h, payload, checked) == StatusVerdict(h, payload)
      requires h.opcode != CLOSE ==> JudgeContent(Assemble(processed).open, h, payload, []) == Fine
      modifies `closeReceived, `statusRecv, `slot0, `slot1, `second, `processed, `delivered, `pongs, `error, `errorSet
      modifies `readEnabled, `readShut, `writeEnabled, `writeShut, `queuedMsgCount, `queuedMsgLength, `hist
      modifies `closeQueued
      modifies `stop
      modifies `sendQueue, `sendCtrlQueue
      ensures ValidSend() && RecvHistory() && old(hist.accepted) <= hist.accepted && old(sendQueue) <= sendQueue
      ensures AtRest(old(SView())) ==> AtRest(SView())
      ensures old(processed) <= processed && old(delivered) <= delivered
      ensures !more ==> !readEnabled && r == EndCode()
      ensures CloseRecorded() && (more ==> stop.Running? || stop.CloseTaken?)
      ensures more ==> processed == old(processed) + [Received(h, payload)]
      ensures more ==>
        delivered == old(delivered) + [Deliver(cfg.buffering, Completed(Assemble(old(processed)).open, h, payload))]
      ensures more ==> r == 0 && processed == frameIn.frames && Boundary(EndFrame(RView()), Assemble(processed).open)
    {
      hide *;
      var opcode := Imsg().opcode;
      var msg := TakeLast(h, payload);
      more, r := AnswerAndConclude(opcode, msg, h, payload);
    }

    /** The message a final frame completes. */
    method TakeLast(ghost h: PrintableHeader, ghost payload: seq<byte>) returns (msg: seq<byte>)
      requires AtFrameEnd(h, payload)
      ensures msg == if Buffered(cfg, h.opcode) then Before(Assemble(processed).open, h) + payload else []
    {
      OpenIsData(processed);
      hide Assemble, FrameIn.FrameReceiver.Valid, MidFrame;
      msg := TakeMessage(Assemble(processed).open, h, payload);
    }

    /** What is known when a final frame is complete. */
    lemma EndFacts(h: PrintableHeader, payload: seq<byte>)
      requires AtFrameEnd(h, payload) && h.fin
      ensures var open := Assemble(processed).open;
        && WellFormed(h) && h.len == |payload| && stop.Running? && readEnabled
        && frameIn.frames == processed + [Received(h, payload)]
        && MidFrame(RView(), open, h, payload, checked)
        && (open.Some? ==> IsDataOpcode(open.value.opcode))
        && JudgeHeader(cfg, open, h) == Fine && Imsg().opcode == MessageOpcode(open, h)
        && (Imsg().opcode == CLOSE <==> h.opcode == CLOSE) && Pieces(h, payload, checked, pieces)
        && Buffered(cfg, MessageOpcode(open, h)) == Buffered(cfg, h.opcode)
        && (IsControl(h.opcode) ==> Before(open, h) + payload == payload && Buffered(cfg, h.opcode))
        && processed + [Received(h, payload)] <= ParseStream(frameIn.Fed()).frames
        && Boundary(EndFrame(Reset(RView())), NextOpen(open, h, payload))
    {
      OpenIsData(processed);
      hide Assemble, FrameIn.FrameReceiver.Valid;
      MidFrameKind(RView(), Assemble(processed).open, h, payload, checked);
      hide JudgeHeader, Boundary, EndFrame, Reset, NextOpen;
      frameIn.FramesParsed();
      FinalEnds(RView(), Assemble(processed).open, h, payload, checked);
    }

    /** As long as reading goes on, no Close was processed. */
    lemma RunningNoClose()
      requires RecvHistory() && stop.Running?
      ensures CloseLast(processed, false) && Receiving(delivered, pongs)
    {
      hide History, StopOk, ParseStream, Ahead, TailFine, CloseMet, RepliesOk;
    }

    /** A fragment is complete and the message goes on. */
    ghost method RecordFragment(h: PrintableHeader, payload: seq<byte>)
      requires RecvHistory() && AtFrameEnd(h, payload) && !h.fin
      requires JudgeContent(Assemble(processed).open, h, payload, []) == Fine && h.opcode != CLOSE
      modifies `processed, `pongs
      ensures RecvHistory() && processed == frameIn.frames
      ensures processed == old(processed) + [Received(h, payload)] && CloseRecorded()
      ensures Boundary(EndFrame(RView()), Assemble(processed).open)
    {
      ghost var open := Assemble(processed).open;
      OpenIsData(processed);
      hide Receiving, Assemble, JudgeContent, FrameIn.FrameReceiver.Valid;
      MidFrameKind(RView(), open, h, payload, checked);
      FragmentEnds(RView(), open, h, payload, checked);
      hide MidFrame, JudgeHeader, Boundary, EndFrame, NextOpen, Completed;
      frameIn.FramesParsed();
      RunningNoClose();
      Record(h, payload, [], pongs);
      assert delivered + [] == delivered;
    }

    /** The next chunk starts a frame. */
    method ExpectFrame()
      requires RecvHistory() && Boundary(EndFrame(RView()), Assemble(processed).open)
      requires readEnabled ==> frameIn.Valid() && processed == frameIn.frames && frameIn.cur == FrameIn.NoFrame
      requires CloseRecorded()
      modifies `ipayloadlen, `ipayloadoff
      ensures ValidRecv()
    {
      hide RecvHistory, CloseRecorded, Assemble, Boundary, FrameIn.FrameReceiver.Valid;
      ipayloadlen, ipayloadoff := 0, 0;
    }

    /** The last byte of a frame is in. */
    method EndOfFrame(ghost h: PrintableHeader, ghost payload: seq<byte>) returns (more: bool, r: int)
      requires ValidSend() && RecvHistory() && AtFrameEnd(h, payload) && Imsg().utf8 != Utf8.UTF8_REJECT
      requires Ahead(h, payload)
      modifies `closeReceived, `statusRecv, `slot0, `slot1, `second, `ipayloadlen, `ipayloadoff
      modifies `processed, `delivered, `pongs, `error, `errorSet
      modifies `readEnabled, `readShut, `writeEnabled, `writeShut, `queuedMsgCount, `queuedMsgLength, `hist
      modifies `closeQueued
      modifies `stop
      modifies `sendQueue, `sendCtrlQueue
      ensures ValidSend() && ValidRecv() && old(hist.accepted) <= hist.accepted && old(sendQueue) <= sendQueue
      ensures AtRest(old(SView())) ==> AtRest(SView())
      ensures old(processed) <= processed && old(delivered) <= delivered
      ensures (more ==> r == 0) && (!more ==> !readEnabled) && r == EndCode()
      ensures more ==> processed == old(processed) + [Received(h, payload)]
      ensures more && !h.fin ==> delivered == old(delivered)
      ensures more && h.fin ==>
        delivered == old(delivered) + [Deliver(cfg.buffering, Completed(Assemble(old(processed)).open, h, payload))]
    {
      hide ValidSend, SView, RecvHistory, Ahead, AtRest, AtFrameEnd, RView, Assemble, Judge, JudgeContent;
      hide CloseRecorded, Pieces, Completed, Deliver, Boundary, EndFrame, Mirrors, FrameIn.FrameReceiver.Valid;
      hide StatusVerdict, Imsg, InTurn, IsControl;
      EndVerdicts(h, payload);
      var m := Imsg();
      if m.fin && (m.opcode == TEXT || m.opcode == CLOSE) && m.utf8 != Utf8.UTF8_ACCEPT {
        r := Refuse(INVALID_DATA, h, payload, checked, pieces);
        return false, r;
      }
      more, r := FinishFrame(m.fin, h, payload);
    }

    /** The frame passed the checks: its message is complete, or goes on. */
    method FinishFrame(fin: bool, ghost h: PrintableHeader, ghost payload: seq<byte>) returns (more: bool, r: int)
      requires ValidSend() && RecvHistory() && AtFrameEnd(h, payload) && Ahead(h, payload) && fin == h.fin
      requires JudgeContent(Assemble(processed).open, h, payload, checked) == StatusVerdict(h, payload)
      requires h.opcode != CLOSE ==> JudgeContent(Assemble(processed).open, h, payload, []) == Fine
      requires !h.fin ==> h.opcode != CLOSE
      requires stop.Running? && readEnabled && frameIn.Valid() && frameIn.cur == FrameIn.NoFrame
      modifies `closeReceived, `statusRecv, `slot0, `slot1, `second, `ipayloadlen, `ipayloadoff
      modifies `processed, `delivered, `pongs, `error, `errorSet
      modifies `readEnabled, `readShut, `writeEnabled, `writeShut, `queuedMsgCount, `queuedMsgLength, `hist
      modifies `closeQueued
      modifies `stop
      modifies `sendQueue, `sendCtrlQueue
      ensures ValidSend() && ValidRecv() && old(hist.accepted) <= hist.accepted && old(sendQueue) <= sendQueue
      ensures AtRest(old(SView())) ==> AtRest(SView())
      ensures old(processed) <= processed && old(delivered) <= delivered
      ensures (more ==> r == 0) && (!more ==> !readEnabled) && r == EndCode()
      ensures more ==> processed == old(processed) + [Received(h, payload)]
      ensures more && !h.fin ==> delivered == old(delivered)
      ensures more && h.fin ==>
        delivered == old(delivered) + [Deliver(cfg.buffering, Completed(Assemble(old(processed)).open, h, payload))]
    {
      hide ValidSend, SView, RecvHistory, Ahead, AtRest, AtFrameEnd, RView, Assemble, Judge, JudgeContent;
      hide CloseRecorded, Pieces, Completed, Deliver, Boundary, EndFrame, Mirrors, FrameIn.FrameReceiver.Valid;
      hide StatusVerdict, Imsg;
      more, r := true, 0;
      if fin {
        more, r := CompleteMessage(h, payload);
        if !more {
          return;
        }
      } else {
        RecordFragment(h, payload);
      }
      ExpectFrame();
    }

    /** What the checks at the end of a frame decide. */
    lemma EndVerdicts(h: PrintableHeader, payload: seq<byte>)
      requires AtFrameEnd(h, payload) && Imsg().utf8 != Utf8.UTF8_REJECT
      ensures stop.Running? && readEnabled && Imsg().fin == h.fin
      ensures frameIn.Valid() && frameIn.cur == FrameIn.NoFrame && Pieces(h, payload, checked, pieces)
      ensures var m, open := Imsg(), Assemble(processed).open;
        if m.fin && (m.opcode == TEXT || m.opcode == CLOSE) && m.utf8 != Utf8.UTF8_ACCEPT then
          Judge(cfg, open, h, payload, checked) == Verdict.Refuse(INVALID_DATA)
        else
          && (JudgeContent(open, h, payload, checked) == StatusVerdict(h, payload))
          && (h.opcode != CLOSE ==> JudgeContent(open, h, payload, []) == Fine)
      ensures !h.fin ==> h.opcode != CLOSE
    {
      hide Assemble, FrameIn.FrameReceiver.Valid, MidFrame, JudgeContent, JudgeHeader, Judge, Pieces;
      hide WellFormed, StatusOf;
      OpenIsData(processed);
      EndVerdict(RView(), Assemble(processed).open, h, payload, checked);
      MidFrameKind(RView(), Assemble(processed).open, h, payload, checked);
      if !h.fin {
        FinalUnlessData(h);
      }
    }

    /** A chunk has come out of the frame layer; before is the frame under way until then, b with the chunk. */
    ghost predicate ChunkIn(io: FrameIn.Iocb, before: FrameIn.Incoming, b: FrameIn.Incoming)
      reads `slot0, `slot1, `second, `ipayloadlen, `ipayloadoff, `processed, `checked, `pieces, `stop, `readEnabled
      reads frameIn, frameIn.ibuf, frameIn.pipe
    {
      && stop.Running? && readEnabled && frameIn.Valid()
      && FrameIn.Grows(before, io, b) && FrameIn.Settles(b, io, processed, frameIn.frames, frameIn.cur)
      && Mirrors(RView(), processed, before, checked)
      && (FrameIn.GotSoFar(before) != [] ==> Pieces(before.h, before.got, checked, pieces))
    }

    /** Extension bits and masking of the frame a chunk belongs to. */
    predicate BadHeader(io: FrameIn.Iocb) {
      io.rsv != 0 || (cfg.server && !io.mask) || (!cfg.server && io.mask)
    }

    /** The tests on the frame a chunk belongs to; a first chunk gets its slot. */
    method AdmitChunk(io: FrameIn.Iocb, ghost before: FrameIn.Incoming, ghost b: FrameIn.Incoming)
      returns (ok: bool, r: int)
      requires ValidSend() && RecvHistory() && ChunkIn(io, before, b) && Ahead(b.h, b.got)
      modifies `slot0, `slot1, `second, `ipayloadlen, `checked, `pieces
      modifies `readEnabled, `queuedMsgCount, `queuedMsgLength, `hist, `closeQueued, `stop
      modifies `sendQueue, `sendCtrlQueue
      ensures ValidSend() && (ok ==> RecvHistory())
      ensures hist.accepted == old(hist.accepted) && sendQueue == old(sendQueue)
      ensures AtRest(old(SView())) ==> AtRest(SView())
      ensures ok ==> stop.Running? && readEnabled && SView() == old(SView())
      ensures ok ==> MidFrame(RView(), Assemble(processed).open, b.h, FrameIn.GotSoFar(before), checked)
      ensures ok ==> Pieces(b.h, FrameIn.GotSoFar(before), checked, pieces)
      ensures !ok ==> ValidRecv() && !readEnabled && r == EndCode()
      ensures !ok ==> stop == Refused(JudgeHeader(cfg, Assemble(processed).open, b.h), b.h, b.got, [], [])
    {
      hide ValidSend, SView, RecvHistory, Ahead, Assemble, FrameIn.FrameReceiver.Valid, AtRest, MidFrame;
      hide Boundary, Pieces, FrameIn.Settles;
      ghost var open := Assemble(processed).open;
      if BadHeader(io) {
        BadHeaderVerdict(cfg, open, b.h, b.got, []);
        hide Judge, JudgeHeader;
        r := Refuse(PROTOCOL_ERROR, b.h, b.got, [], []);
        return false, r;
      }
      hide Judge, JudgeHeader;
      FrameStarts(RView(), processed, before, checked);
      if Imsg().opcode == NO_OPCODE || (ipayloadlen == 0 && ipayloadoff == 0) {
        ok, r := NewFrame(io, b.h, b.got);
        PiecesStart(b.h);
      } else {
        ok, r := true, 0;
      }
    }

    /** The text of a chunk; a hopeless one ends reading. */
    method TakeText(io: FrameIn.Iocb, ghost h: Header, ghost got: seq<byte>) returns (ok: bool, r: int)
      requires ValidSend() && RecvHistory() && stop.Running? && readEnabled && Ahead(h, got + io.data)
      requires MidFrame(RView(), Assemble(processed).open, h, got, checked) && Pieces(h, got, checked, pieces)
      modifies `slot0, `slot1
      modifies `readEnabled, `queuedMsgCount, `queuedMsgLength, `hist, `closeQueued, `stop
      modifies `sendQueue, `sendCtrlQueue
      ensures ValidSend() && hist.accepted == old(hist.accepted) && sendQueue == old(sendQueue)
      ensures AtRest(old(SView())) ==> AtRest(SView())
      ensures ok ==> RecvHistory() && stop.Running? && readEnabled
      ensures ok ==> RView() == CheckText(old(RView()), io.data) && Imsg().utf8 != Utf8.UTF8_REJECT
      ensures ok && |got + io.data| < h.len ==>
        JudgeContent(Assemble(processed).open, h, got + io.data, CheckedAfter(h, checked, io.data)) == Fine
      ensures !ok ==> ValidRecv() && !readEnabled && r == EndCode()
      ensures !ok ==> stop == Refused(Verdict.Refuse(INVALID_DATA), h, got + io.data, CheckedAfter(h, checked, io.data),
                                      PiecesAfter(pieces, io.data))
    {
      hide ValidSend, SView, RecvHistory, Ahead, Assemble, AtRest, Judge, CheckedAfter, MidFrame, CheckText;
      hide JudgeContent, JudgeHeader, Pieces, PiecesAfter, ValidRecv, StopOk;
      ghost var v, open := RView(), Assemble(processed).open;
      OpenIsData(processed);
      RunText(io.data);
      if Imsg().utf8 == Utf8.UTF8_REJECT {
        TextVerdict(v, open, h, got, checked, io.data);
        PiecesGrow(h, got, checked, pieces, io.data);
        r := Refuse(INVALID_DATA, h, got + io.data, CheckedAfter(h, checked, io.data), PiecesAfter(pieces, io.data));
        return false, r;
      }
      TextGoesOn(v, open, h, got, checked, io.data);
      return true, 0;
    }

    /** The bytes of a chunk go into the buffer. */
    method TakeBytes(io: FrameIn.Iocb, ghost v: RecvView, ghost h: Header, ghost got: seq<byte>)
      requires MidFrame(v, Assemble(processed).open, h, got, checked) && |got| + |io.data| <= h.len
      requires h.opcode == io.opcode
      requires RView() == CheckText(v, io.data) && v.cfg == cfg && Pieces(h, got, checked, pieces)
      modifies `slot0, `slot1, `ipayloadoff, `checked, `pieces
      ensures Imsg().utf8 == old(Imsg().utf8)
      ensures MidFrame(RView(), Assemble(processed).open, h, got + io.data, checked)
      ensures checked == CheckedAfter(h, old(checked), io.data) && Pieces(h, got + io.data, checked, pieces)
      ensures ipayloadlen == h.len && ipayloadoff == |got + io.data|
    {
      hide Assemble, CheckedAfter, Pieces, PiecesAfter, MidFrame, CheckText, Store, Flatten;
      OpenIsData(processed);
      ChunkTaken(v, Assemble(processed).open, h, got, checked, io.data);
      StoreChunk(io, h);
      PiecesGrow(h, got, checked, pieces, io.data);
      checked, pieces := CheckedAfter(h, checked, io.data), PiecesAfter(pieces, io.data);
    }

    /** The bytes of a chunk: through the automaton, into the buffer, and on to the end of the frame if this was it. */
    method ProcessChunk(io: FrameIn.Iocb, ghost before: FrameIn.Incoming, ghost b: FrameIn.Incoming)
      returns (more: bool, r: int)
      requires ValidSend() && RecvHistory() && stop.Running? && readEnabled && frameIn.Valid()
      requires b.Body? && Ahead(b.h, b.got)
      requires FrameIn.Grows(before, io, b) && FrameIn.Settles(b, io, processed, frameIn.frames, frameIn.cur)
      requires MidFrame(RView(), Assemble(processed).open, b.h, FrameIn.GotSoFar(before), checked)
      requires Pieces(b.h, FrameIn.GotSoFar(before), checked, pieces)
      modifies `closeReceived, `statusRecv, `slot0, `slot1, `second, `ipayloadlen, `ipayloadoff
      modifies `processed, `checked, `pieces, `delivered, `pongs, `error, `errorSet
      modifies `readEnabled, `readShut, `writeEnabled, `writeShut, `queuedMsgCount, `queuedMsgLength, `hist
      modifies `closeQueued
      modifies `stop
      modifies `sendQueue, `sendCtrlQueue
      ensures ValidSend() && ValidRecv() && old(hist.accepted) <= hist.accepted && old(sendQueue) <= sendQueue
      ensures AtRest(old(SView())) ==> AtRest(SView())
      ensures old(processed) <= processed && old(delivered) <= delivered
      ensures (more ==> r == 0) && (!more ==> !readEnabled) && r == EndCode()
    {
      hide ValidSend, SView, RecvHistory, Ahead, Assemble, FrameIn.FrameReceiver.Valid, AtRest, CheckedAfter;
      hide MidFrame, CheckText, Boundary, Pieces, PiecesAfter, JudgeContent, CloseMet, FrameIn.Grows, FrameIn.Settles;
      hide ValidRecv, AtFrameEnd, RView;
      FrameIn.GrowsBy(before, io, b);
      ViewHasConfig();
      ghost var v := RView();
      var ok;
      ok, r := TakeText(io, b.h, FrameIn.GotSoFar(before));
      if !ok {
        return false, r;
      }
      TakeBytes(io, v, b.h, FrameIn.GotSoFar(before));
      ChunkSettles(io, before, b);
      if ipayloadoff == ipayloadlen {
        more, r := EndOfFrame(b.h, b.got);
      } else {
        more, r := true, 0;
      }
    }

    lemma ViewHasConfig()
      ensures RView().cfg == cfg
    {
    }

    /** After a chunk the frame is complete, or it goes on and all is in order. */
    lemma ChunkSettles(io: FrameIn.Iocb, before: FrameIn.Incoming, b: FrameIn.Incoming)
      requires RecvHistory() && stop.Running? && readEnabled && frameIn.Valid()
      requires FrameIn.Grows(before, io, b) && FrameIn.Settles(b, io, processed, frameIn.frames, frameIn.cur)
      requires MidFrame(RView(), Assemble(processed).open, b.h, b.got, checked) && Pieces(b.h, b.got, checked, pieces)
      requires |b.got| < b.h.len ==> JudgeContent(Assemble(processed).open, b.h, b.got, checked) == Fine
      ensures if |b.got| == b.h.len then AtFrameEnd(b.h, b.got) else ValidRecv() && EndCode() == 0
    {
      hide RecvHistory, Assemble, MidFrame, Pieces, JudgeContent, FrameIn.FrameReceiver.Valid;
    }

    /** The frame a chunk belongs to is the next one of the stream. */
    lemma ChunkAhead(io: FrameIn.Iocb, before: FrameIn.Incoming, b: FrameIn.Incoming)
      requires frameIn.Valid() && FrameIn.Grows(before, io, b)
      requires FrameIn.Settles(b, io, processed, frameIn.frames, frameIn.cur)
      ensures Ahead(b.h, b.got) && processed <= ParseStream(frameIn.Fed()).frames
    {
      hide ParseStream;
      frameIn.FramesParsed();
      FrameIn.SettlesGrows(b, io, processed, frameIn.frames, frameIn.cur);
      if frameIn.cur.Body? {
        frameIn.CurrentParsed();
      }
      hide FrameIn.FrameReceiver.Fields, AllFaithful, StreamBytes;
    }

    /** The receive half and the send half have their own buffers. */
    lemma OwnObjects()
      requires ValidSend()
      ensures frameIn.ibuf != obuf && frameIn.ibuf != frameOut.oheader && frameOut.pipe != frameIn.pipe
    {
      hide Inv, FrameOut.FrameSender.Valid;
    }

    /** wslay_frame_recv, as the receive half sees it. */
    method PullChunk() returns (code: FrameIn.Code, io: FrameIn.Iocb, ghost b: FrameIn.Incoming)
      requires ValidSend() && ValidRecv() && readEnabled
      modifies `error, `errorSet, frameIn, frameIn.ibuf, frameIn.pipe`taken
      ensures ValidSend() && SView() == old(SView()) && RecvHistory() && stop.Running?
      ensures code == FrameIn.OK ==> ChunkIn(io, old(frameIn.cur), b) && frameIn.Unread() < old(frameIn.Unread())
      ensures code == FrameIn.OK ==> b.Body? && Ahead(b.h, b.got)
      ensures code == FrameIn.WANT_READ ==>
        ValidRecv() && ParseStream(frameIn.Fed()) == Parse(processed, frameIn.PendingTail())
      ensures code == FrameIn.PROTO ==> ParseStream(frameIn.Fed()) == Parse(processed, Violation)
      ensures frameIn.pipe.taken >= old(frameIn.pipe.taken)
      ensures code == FrameIn.WANT_READ ==> ReadOn(old(frameIn.pipe.taken))
    {
      hide ValidSend, SView, RView, History, Ahead, Assemble, ParseStream, StopOk, MidFrame, Boundary;
      hide RepliesOk, CloseLast;
      hide TailFine, CloseMet, JudgeContent, Pieces;
      hide FrameIn.Settles, FrameIn.FrameReceiver.PendingTail, FrameIn.FrameReceiver.Valid;
      OwnObjects();
      CallbackReports();
      code, io, b := frameIn.Recv();
      if code == FrameIn.OK {
        ChunkAhead(io, old(frameIn.cur), b);
      }
    }

    /** Reading went on, if every recv call gives a byte when there is one: some came, or there is none left. */
    ghost predicate ReadOn(taken: nat)
      reads frameIn, frameIn.pipe
    {
      frameIn.pipe.lively ==> frameIn.pipe.taken > taken || frameIn.pipe.taken == |frameIn.pipe.bytes|
    }

    /** The frame layer gave no chunk: out of input, or reading fails with an empty Close. */
    method RecvFailed(code: FrameIn.Code) returns (r: int)
      requires ValidSend() && RecvHistory() && stop.Running? && readEnabled && code != FrameIn.OK
      requires code == FrameIn.WANT_READ ==>
        ValidRecv() && ParseStream(frameIn.Fed()) == Parse(processed, frameIn.PendingTail())
      requires code == FrameIn.PROTO ==> ParseStream(frameIn.Fed()) == Parse(processed, Violation)
      modifies `readEnabled, `queuedMsgCount, `queuedMsgLength, `hist, `closeQueued, `stop
      modifies `sendQueue, `sendCtrlQueue
      ensures ValidSend() && ValidRecv() && hist.accepted == old(hist.accepted) && sendQueue == old(sendQueue)
      ensures AtRest(old(SView())) ==> AtRest(SView())
      ensures readEnabled ==> r == 0 && code == FrameIn.WANT_READ && (error == 0 || error == ERR_WOULDBLOCK)
      ensures r == EndCode() && (!readEnabled ==> r == if old(IsQueueable()) then ERR_CALLBACK_FAILURE else 1)
      ensures !readEnabled && old(IsQueueable()) ==> SView() == CloseWith(old(SView()), [], true)
      ensures readEnabled ==> SView() == old(SView())
      ensures stop == if readEnabled then Running else if code == FrameIn.PROTO then Violated else Failed(error)
    {
      hide ValidSend, SView, AtRest, History, StopOk, ParseStream, RepliesOk, CloseLast, TailFine, CloseMet;
      hide Mirrors, ChunksFine;
      hide FrameIn.FrameReceiver.Valid, FrameIn.FrameReceiver.PendingTail, AnswerTo;
      if code == FrameIn.WANT_READ && (error == ERR_WOULDBLOCK || error == 0) {
        return 0;
      }
      if code == FrameIn.WANT_READ {
        PendingFine();
      }
      r := EndReading(if code == FrameIn.PROTO then Violated else Failed(error));
      if r == 0 {
        r := ERR_CALLBACK_FAILURE;
      }
    }

    /** Reading ends with an empty Close. */
    method EndReading(ghost why: Stop) returns (r: int)
      requires ValidSend() && RecvHistory() && stop.Running? && (why.Violated? || why.Failed?)
      requires why.Failed? ==> why.error != 0 && why.error != ERR_WOULDBLOCK
      requires var p := ParseStream(frameIn.Fed());
        if why.Violated? then p == Parse(processed, Violation)
        else p.frames == processed && !p.tail.Violation? && TailFine(cfg, processed, p.tail)
      modifies `readEnabled, `queuedMsgCount, `queuedMsgLength, `hist, `closeQueued, `stop
      modifies `sendQueue, `sendCtrlQueue
      ensures ValidSend() && ValidRecv() && !readEnabled && stop == why
      ensures hist.accepted == old(hist.accepted) && sendQueue == old(sendQueue)
      ensures AtRest(old(SView())) ==> AtRest(SView())
      ensures r == (if old(IsQueueable()) then 0 else 1) && Answered(hist.log) == (r == 0)
      ensures SView() == if r == 0 then CloseWith(old(SView()), [], true) else old(SView())
    {
      hide ValidSend, SView, AtRest, History, ParseStream, RepliesOk, CloseLast, TailFine, CloseMet;
      stop := why;
      r := QueueCloseWrapper(0, []);
      Stopped(r == 0);
    }

    /** What is left of the input is fine, as far as it does not depend on how a Close was cut up. */
    lemma PendingFine()
      requires ValidRecv() && readEnabled
      ensures !frameIn.PendingTail().Violation? && TailFine(cfg, processed, frameIn.PendingTail())
    {
      hide History, StopOk, ParseStream, RepliesOk, CloseLast, CloseMet, Assemble, JudgeContent, Pieces;
      if frameIn.cur.Body? && frameIn.cur.got != [] {
        MidFrameVerdict(RView(), Assemble(processed).open, frameIn.cur.h, frameIn.cur.got, checked);
      }
    }

    /** A round of the receive loop; more tells that the loop goes on. */
    method RecvRound() returns (more: bool, r: int)
      requires ValidSend() && ValidRecv() && readEnabled
      modifies frameIn, frameIn.ibuf, frameIn.pipe`taken
      modifies `closeReceived, `statusRecv, `slot0, `slot1, `second, `ipayloadlen, `ipayloadoff
      modifies `processed, `checked, `pieces, `delivered, `pongs, `error, `errorSet
      modifies `readEnabled, `readShut, `writeEnabled, `writeShut, `queuedMsgCount, `queuedMsgLength, `hist
      modifies `closeQueued
      modifies `stop
      modifies `sendQueue, `sendCtrlQueue
      ensures ValidSend() && ValidRecv() && old(hist.accepted) <= hist.accepted && old(sendQueue) <= sendQueue
      ensures AtRest(old(SView())) ==> AtRest(SView())
      ensures old(processed) <= processed && old(delivered) <= delivered
      ensures r == EndCode()
      ensures more ==> r == 0 && (readEnabled ==> frameIn.Unread() < old(frameIn.Unread()))
      ensures !more && readEnabled ==> r == 0 && ParseStream(frameIn.Fed()) == Parse(processed, frameIn.PendingTail())
      ensures !more && readEnabled ==> error == 0 || error == ERR_WOULDBLOCK
      ensures frameIn.pipe.taken >= old(frameIn.pipe.taken)
      ensures !more && readEnabled ==> ReadOn(old(frameIn.pipe.taken))
    {
      hide ValidSend, SView, RecvHistory, Ahead, ValidRecv, AtRest, Assemble, MidFrame, ParseStream;
      hide FrameIn.Grows, FrameIn.Settles, FrameIn.FrameReceiver.Valid, Mirrors, EndCode, CloseRecorded, ChunksFine;
      var code, io;
      ghost var b;
      ghost var before := frameIn.cur;
      code, io, b := PullChunk();
      if code == FrameIn.OK {
        var ok;
        ok, r := AdmitChunk(io, before, b);
        if !ok {
          return false, r;
        }
        more, r := ProcessChunk(io, before, b);
      } else {
        r := RecvFailed(code);
        more := false;
      }
    }

    lemma RunningCode()
      requires RecvHistory() && readEnabled
      ensures stop.Running? && EndCode() == 0
    {
      hide History, StopOk, ParseStream, RepliesOk, CloseLast, TailFine, CloseMet;
    }

    /** wslay_event_recv: goes on until the input is used up or reading has ended. */
    method EventRecv() returns (r: int)
      requires ValidSend() && ValidRecv()
      modifies frameIn, frameIn.ibuf, frameIn.pipe`taken
      modifies `closeReceived, `statusRecv, `slot0, `slot1, `second, `ipayloadlen, `ipayloadoff
      modifies `processed, `checked, `pieces, `delivered, `pongs, `error, `errorSet
      modifies `readEnabled, `readShut, `writeEnabled, `writeShut, `queuedMsgCount, `queuedMsgLength, `hist
      modifies `closeQueued
      modifies `stop
      modifies `sendQueue, `sendCtrlQueue
      ensures ValidSend() && ValidRecv() && old(hist.accepted) <= hist.accepted && old(sendQueue) <= sendQueue
      ensures AtRest(old(SView())) ==> AtRest(SView())
      ensures old(processed) <= processed && old(delivered) <= delivered
      ensures readEnabled ==> r == 0 && ParseStream(frameIn.Fed()) == Parse(processed, frameIn.PendingTail())
      ensures readEnabled ==> error == 0 || error == ERR_WOULDBLOCK
      ensures readEnabled ==> ReadOn(old(frameIn.pipe.taken))
      ensures r == if old(readEnabled) then EndCode() else 0
    {
      hide Inv, FrameOut.FrameSender.Valid, History, StopOk, Mirrors, AtRest, ParseStream, StreamBytes;
      hide FrameIn.FrameReceiver.Fields, AllFaithful, RepliesOk, CloseLast, TailFine, CloseMet, JudgeContent;
      hide Pieces, RecvCode;
      var more := true;
      r := 0;
      if readEnabled {
        RunningCode();
      }
      while more && readEnabled
        invariant ValidSend() && ValidRecv() && old(hist.accepted) <= hist.accepted && old(sendQueue) <= sendQueue
        invariant AtRest(old(SView())) ==> AtRest(SView())
        invariant (more ==> r == 0) && r == (if old(readEnabled) then EndCode() else 0)
        invariant old(processed) <= processed && old(delivered) <= delivered
        invariant !more && readEnabled ==> error == 0 || error == ERR_WOULDBLOCK
        invariant frameIn.pipe.taken >= old(frameIn.pipe.taken)
        invariant !more && readEnabled ==> ReadOn(old(frameIn.pipe.taken))
        invariant !more && readEnabled ==>
          r == 0 && ParseStream(frameIn.Fed()) == Parse(processed, frameIn.PendingTail())
        decreases more, readEnabled, if more && readEnabled then frameIn.Unread() else 0
      {
        more, r := RecvRound();
      }
    }
  }
}
