/** Two contexts, each reading what the other one writes: what holds in every state they can reach together. */
module EndToEnd {
  import opened Bytes
  import opened Headers
  import opened Stream
  import opened Protocol
  import opened SendModel
  import opened RecvModel
  import opened Peer
  import opened Transport
  import opened Event
  import opened Chunking
  import FrameOut
  import FrameIn
  import Wire
  import OneShot
  import Utf8

  /** a's bytes are b's input, and one of them is the server. */
  ghost predicate Feeds(a: EventContext, b: EventContext)
    reads a, a.frameOut, a.frameOut.oheader, a.frameOut.pipe, a.obuf
    reads b, b.frameIn, b.frameIn.ibuf, b.frameIn.pipe
  {
    && a.ValidSend() && !a.broken && b.ValidRecv()
    && b.frameIn.pipe == a.frameOut.pipe && b.cfg.server == !a.cfg.server
  }

  /** What a has written holds exactly its finished frames and a part of the next one. */
  lemma SentIsParsed(a: EventContext)
    requires a.ValidSend() && !a.broken
    ensures a.obuflimit <= a.obuf.Length && Inv(a.SView()) && Wire.Parsed(a.SView(), a.frameOut.pipe.bytes)
  {
    var v := a.SView();
    hide QueuesOk, ContentOk, CountersOk, CloseOk, ControlOk, EndsOk, StreamBytes, FrameOut.FrameSender.Valid;
    hide ParseStream;
    hide EventContext.Writing;
    if v.cur.Busy? {
      BusyFits(v);
    }
    SentAreFaithful(v);
    hide Inv;
    a.frameOut.SentParsed();
  }

  lemma BusyFits(v: SendView)
    requires Inv(v) && v.cur.Busy?
    ensures WellFormed(v.cur.h) && |v.cur.sent| <= v.cur.h.len && v.cur.mask == v.cur.h.key
  {
    hide QueuesOk, ContentOk, FramesOk, CountersOk, CloseOk, ControlOk, EndsOk;
  }

  lemma SentAreFaithful(v: SendView)
    requires Inv(v)
    ensures AllFaithful(v.frames)
  {
    hide QueuesOk, ContentOk, Coupled, CountersOk, CloseOk, ControlOk, EndsOk, Faithful;
  }

  /** The accounts of a sender and its reader fit together. */
  lemma AccountsFit(a: EventContext, b: EventContext)
    requires Feeds(a, b)
    ensures b.frameIn.pipe.taken <= |b.frameIn.pipe.bytes| && a.obuflimit <= a.obuf.Length
    ensures Wire.Carried(a.SView(), a.frameOut.pipe.bytes, AccountOf(b))
    ensures a.SView().hist == a.hist && a.SView().frames == a.frameOut.done && a.SView().server == a.cfg.server
    ensures Waiting(b) || !b.stop.Running? ==> UsedUp(AccountOf(b))
  {
    hide Inv, Wire.Parsed, Delivered, Standing, EventContext.ValidSend, EventContext.ValidRecv, Waiting, UsedUp;
    SentIsParsed(a);
    AccountsAreTrue(b);
  }

  /** b has taken in all that was written, and waits for more. */
  ghost predicate CaughtUp(b: EventContext)
    reads b, b.frameIn, b.frameIn.ibuf, b.frameIn.pipe
  {
    Waiting(b) && b.frameIn.pipe.taken == |b.frameIn.pipe.bytes|
  }

  /** b has nothing more to read: it has caught up, or has stopped at a Close. */
  ghost predicate ReadOut(b: EventContext)
    reads b, b.frameIn, b.frameIn.ibuf, b.frameIn.pipe
  {
    CaughtUp(b) || Wire.CloseSeen(b.stop)
  }

  lemma ReadOutFits(a: EventContext, b: EventContext)
    requires Feeds(a, b) && ReadOut(b)
    ensures b.frameIn.pipe.taken <= |b.frameIn.pipe.bytes|
    ensures Wire.ReadOut(a.frameOut.pipe.bytes, AccountOf(b))
  {
    AccountsFit(a, b);
    hide Inv, AllFine, Delivered, Standing, EventContext.ValidSend, EventContext.ValidRecv;
  }

  // -- Data messages -----------------------------------------------------

  /** The frames b has processed are the first ones of those a has sent completely. */
  lemma ProcessedAreSent(a: EventContext, b: EventContext)
    requires Feeds(a, b)
    ensures b.processed <= a.frameOut.done
  {
    AccountsFit(a, b);
    hide Wire.Carried, EventContext.ValidSend, EventContext.ValidRecv, Waiting;
    Wire.ProcessedAreSent(a.SView(), a.frameOut.pipe.bytes, AccountOf(b));
  }

  /**
   Safety: whatever was queued, however the bytes were cut up on either side, and wherever both sides stand, the
   data messages b was given are the first of those queued at a, in order and byte for byte.
   */
  lemma DeliveredIsPrefix(a: EventContext, b: EventContext)
    requires Feeds(a, b) && b.cfg.buffering
    ensures DataOnly(b.delivered) <= a.hist.accepted
  {
    AccountsFit(a, b);
    hide Wire.Carried, EventContext.ValidSend, EventContext.ValidRecv, Waiting;
    Wire.DeliveredIsPrefix(a.SView(), a.frameOut.pipe.bytes, AccountOf(b));
  }

  /** When b has nothing more to read, it was given exactly the messages that a sent completely. */
  lemma CompletedIsDelivered(a: EventContext, b: EventContext)
    requires Feeds(a, b) && b.cfg.buffering && ReadOut(b)
    ensures DataOnly(b.delivered) == Data(Assemble(a.frameOut.done).out)
  {
    AccountsFit(a, b);
    ReadOutFits(a, b);
    hide Wire.Carried, Wire.ReadOut, EventContext.ValidSend, EventContext.ValidRecv, Waiting, Data, Assemble;
    Wire.CompletedIsDelivered(a.SView(), a.frameOut.pipe.bytes, AccountOf(b));
  }

  /** No data message of a's waits to be sent or is under way. */
  ghost predicate Drained(a: EventContext)
    reads a, a.frameOut, a.obuf
  {
    a.obuflimit <= a.obuf.Length && Line(a.SView()) == []
  }

  /**
   Completeness: when a has no data message left to send, b was given exactly the messages queued at a, whether it
   waits for more or the session ended with a Close.
   */
  lemma DrainedDeliversAll(a: EventContext, b: EventContext)
    requires Feeds(a, b) && b.cfg.buffering && ReadOut(b) && Drained(a)
    ensures DataOnly(b.delivered) == a.hist.accepted
  {
    AccountsFit(a, b);
    ReadOutFits(a, b);
    hide Wire.Carried, Wire.ReadOut, EventContext.ValidSend, EventContext.ValidRecv, Waiting, Line;
    Wire.DrainedDeliversAll(a.SView(), a.frameOut.pipe.bytes, AccountOf(b));
  }

  /**
   Nothing acceptable is refused: b never sees a malformed stream, refuses at most the content of a Close, and stops
   reading for no other reason than a Close, a failed callback or its application.
   */
  lemma NothingRefused(a: EventContext, b: EventContext)
    requires Feeds(a, b) && Acceptable(b.cfg, a.hist.accepted) && Wire.ControlFits(b.cfg, Foreseen(a.SView()))
    ensures !b.stop.Violated?
    ensures b.stop.Refused? ==>
      b.stop.h.opcode == CLOSE && JudgeHeader(b.cfg, Assemble(b.processed).open, b.stop.h) == Fine
    ensures b.readEnabled || b.readShut || b.stop.Failed? || Wire.CloseSeen(b.stop)
  {
    AccountsFit(a, b);
    ReadingIsOn(b);
    hide Wire.Carried, EventContext.ValidSend, EventContext.ValidRecv, Waiting, JudgeHeader, Assemble;
    hide Acceptable, Foreseen;
    hide Wire.ControlFits, Inv;
    Wire.NothingRefused(a.SView(), a.frameOut.pipe.bytes, AccountOf(b));
  }

  lemma ReadingIsOn(b: EventContext)
    requires b.ValidRecv()
    ensures b.readEnabled == (b.stop.Running? && !b.readShut)
    ensures b.stop.CloseUnanswered? ==> b.stop.h.opcode == CLOSE
  {
    hide History, ParseStream, RepliesOk, Mirrors, TailFine, CloseLast, StopOk, FrameIn.FrameReceiver.Valid;
    hide EventContext.ChunksFine;
  }

  // -- Replies -----------------------------------------------------------

  /** The control messages b was given, but for a Close at the end, are the first of those queued at a. */
  lemma ControlIsPrefix(a: EventContext, b: EventContext)
    requires Feeds(a, b)
    ensures Unclosed(ControlOnly(b.delivered)) <= LogMsgs(a.hist.log)
    ensures forall m | m in ControlOnly(b.delivered) :: m in LogMsgs(a.hist.log)
  {
    AccountsFit(a, b);
    DeliveredControl(AccountOf(b));
    hide Wire.Carried, EventContext.ValidSend, EventContext.ValidRecv, Waiting, Assemble, Control, Unclosed;
    hide LogMsgs, ControlOnly;
    Wire.ControlIsPrefix(a.SView(), a.frameOut.pipe.bytes, AccountOf(b));
  }

  lemma DeliveredControl(x: Account)
    requires Delivered(x)
    ensures ControlOnly(x.delivered) == Control(Assemble(x.processed).out)
  {
    hide ParseStream, Assemble, FineFrames, Deliveries, CloseLast, Control, ControlOnly;
    ControlDelivered(x.cfg.buffering, Assemble(x.processed).out);
  }

  /** The pongs in b's log of its own replies answer the pings b processed. */
  lemma RepliesAnswer(b: EventContext)
    requires b.ValidRecv()
    ensures Pongs(Replies(b.hist.log)) <= Pings(Assemble(b.processed).out)
    ensures b.IsQueueable() ==> Pongs(Replies(b.hist.log)) == Pings(Assemble(b.processed).out)
  {
    hide ParseStream, Assemble, FineFrames, Deliveries, CloseLast, Mirrors, TailFine, Pings, Pongs, StopOk;
    hide FrameIn.FrameReceiver.Valid, EventContext.ChunksFine, EventContext.StopJustified, RepliesOk;
    RepliedPongs(b.hist.log, b.pongs, b.stop);
  }

  /** The pongs the library has queued at b carry, in order, the payloads of the first pings queued at a. */
  lemma PongsAnswerPings(a: EventContext, b: EventContext)
    requires Feeds(a, b)
    ensures Pongs(Replies(b.hist.log)) <= Pings(LogMsgs(a.hist.log))
  {
    AccountsFit(a, b);
    RepliesAnswer(b);
    hide Wire.Carried, EventContext.ValidSend, EventContext.ValidRecv, Waiting, Assemble, Pings, Pongs, LogMsgs;
    Wire.PingsArePrefix(a.SView(), a.frameOut.pipe.bytes, AccountOf(b));
  }

  /** All of them, once a has sent its control messages, b has caught up, and b may still queue. */
  lemma AllPingsAnswered(a: EventContext, b: EventContext)
    requires Feeds(a, b) && CaughtUp(b) && b.IsQueueable()
    requires a.sendCtrlQueue == [] && a.hist.discarded == [] && (a.omsg.None? || !IsControl(a.omsg.value.opcode))
    ensures Pongs(Replies(b.hist.log)) == Pings(LogMsgs(a.hist.log))
  {
    AccountsFit(a, b);
    RepliesAnswer(b);
    hide Wire.Carried, EventContext.ValidSend, EventContext.ValidRecv, Assemble, Pings, Pongs, LogMsgs;
    hide AllFine, Delivered, Standing;
    Wire.AllPingsArrive(a.SView(), a.frameOut.pipe.bytes, AccountOf(b));
  }

  /**
   When b stopped reading, other than for want of memory, the last message it queued is the Close that goes with the
   reason; unless its own application had queued a Close before, or writing had ended.
   */
  lemma ReadingEndsWithClose(b: EventContext)
    requires b.ValidSend() && !b.broken && b.ValidRecv() && !b.stop.Running?
    requires b.stop.Refused? ==> b.stop.verdict.Refuse?
    ensures var log := b.hist.log;
      if Answered(log) then log[|log| - 1].m == Msg(CLOSE, AnswerTo(b.stop))
      else if b.closeQueued then log != [] && log[|log| - 1].m.opcode == CLOSE && !log[|log| - 1].reply
      else !b.writeEnabled
    ensures b.stop.CloseTaken? ==> Answered(b.hist.log)
    ensures b.stop.CloseUnanswered? ==> !Answered(b.hist.log)
  {
    hide EventContext.ValidSend, EventContext.ValidRecv, AnswerTo, RepliesOk, Inv;
    EndsFacts(b);
    if Answered(b.hist.log) {
      AnswerIsLast(b.hist.log, b.pongs, b.stop);
    }
    if b.closeQueued {
      LoggedClose(b.SView());
    }
  }

  lemma EndsFacts(b: EventContext)
    requires b.ValidSend() && !b.broken && b.ValidRecv() && !b.stop.Running?
    requires b.stop.Refused? ==> b.stop.verdict.Refuse?
    ensures RepliesOk(b.hist.log, b.pongs, b.stop) && !b.IsQueueable()
    ensures b.obuflimit <= b.obuf.Length
    ensures Inv(b.SView()) && b.SView().hist == b.hist && b.SView().closeQueued == b.closeQueued
    ensures b.stop.CloseTaken? ==> Answered(b.hist.log)
    ensures b.stop.CloseUnanswered? ==> !Answered(b.hist.log)
  {
    hide Inv, History, ParseStream, CloseLast, Mirrors, TailFine, StopOk, FrameIn.FrameReceiver.Valid;
    hide EventContext.ChunksFine;
    hide FrameOut.FrameSender.Valid, EventContext.Writing, AnswerTo, NextIn, CloseChecked, Replies, PongMsgs;
  }

  lemma LoggedClose(v: SendView)
    requires Inv(v) && v.closeQueued
    ensures v.hist.log != [] && v.hist.log[|v.hist.log| - 1].m.opcode == CLOSE
  {
    hide QueuesOk, ContentOk, Coupled, FramesOk, CountersOk, CloseOk, EndsOk;
  }

  lemma AnswerIsLast(log: seq<Logged>, pongs: seq<seq<byte>>, stop: Stop)
    requires RepliesOk(log, pongs, stop) && Answered(log)
    ensures log[|log| - 1].m == Msg(CLOSE, AnswerTo(stop))
  {
    hide AnswerTo;
    assert Replies(log)[|pongs|] == log[|log| - 1].m;
  }

  // -- The closing handshake ---------------------------------------------

  /** When b met a's Close, a has noted it as sent, and both have the same status on record. */
  lemma StatusAgrees(a: EventContext, b: EventContext)
    requires Feeds(a, b) && (b.stop.CloseTaken? || b.stop.CloseUnanswered?)
    ensures a.closeSent && b.closeReceived && b.statusRecv == a.statusSent
  {
    hide EventContext.ValidSend, EventContext.ValidRecv, Waiting, SentStatus, Inv, Delivered, ParseStream;
    hide CloseChecked;
    AccountsFit(a, b);
    CloseIsMet(b);
    CloseIsNoted(a);
    Wire.CloseIsLastSent(a.SView(), a.frameOut.pipe.bytes, AccountOf(b));
  }

  lemma CloseIsMet(b: EventContext)
    requires b.ValidRecv() && (b.stop.CloseTaken? || b.stop.CloseUnanswered?)
    ensures b.closeReceived && b.statusRecv == SentStatus(b.stop.payload)
    ensures b.stop.CloseTaken? ==> b.processed != [] && b.processed[|b.processed| - 1].payload == b.stop.payload
    ensures b.stop.CloseTaken? ==> b.processed[|b.processed| - 1].h.opcode == CLOSE
    ensures b.stop.CloseUnanswered? ==> b.stop.h.opcode == CLOSE
  {
    hide History, ParseStream, RepliesOk, Mirrors, TailFine, CloseLast, StopOk, FrameIn.FrameReceiver.Valid;
    hide EventContext.ChunksFine;
    hide Pieces, SentStatus;
  }

  lemma CloseIsNoted(a: EventContext)
    requires a.ValidSend() && !a.broken
    ensures LastIsClose(a.frameOut.done) ==>
      a.closeSent && a.statusSent == SentStatus(a.frameOut.done[|a.frameOut.done| - 1].payload)
  {
    hide Inv, SentStatus, FrameOut.FrameSender.Valid;
  }

  // -- The same bytes ----------------------------------------------------

  ghost predicate SameInput(b: EventContext, c: EventContext)
    reads b, b.frameIn, b.frameIn.ibuf, b.frameIn.pipe, c, c.frameIn, c.frameIn.ibuf, c.frameIn.pipe
  {
    && b.ValidRecv() && c.ValidRecv() && b.cfg == c.cfg
    && b.frameIn.pipe.taken <= |b.frameIn.pipe.bytes| && c.frameIn.pipe.taken <= |c.frameIn.pipe.bytes|
    && b.frameIn.Fed() == c.frameIn.Fed()
  }

  /**
   Chunking independence: a context that has seen a part of the bytes another one used up has delivered the first of
   its messages, however the bytes came in and whatever either application did; a Close that the other one did not
   take may come on top.
   */
  lemma DeliveredFromBytes(b: EventContext, c: EventContext)
    requires b.ValidRecv() && c.ValidRecv() && b.cfg == c.cfg && (Waiting(c) || !c.stop.Running?)
    requires b.frameIn.pipe.taken <= |b.frameIn.pipe.bytes| && c.frameIn.pipe.taken <= |c.frameIn.pipe.bytes|
    requires b.frameIn.Fed() <= c.frameIn.Fed()
    ensures DataOnly(b.delivered) <= DataOnly(c.delivered)
    ensures
      || (b.processed <= c.processed && b.delivered <= c.delivered)
      || (CloseDisputed(c.stop) && b.stop.CloseTaken? && |b.delivered| == |c.delivered| + 1
          && b.delivered == c.delivered + [b.delivered[|c.delivered|]] && b.delivered[|c.delivered|].opcode == CLOSE)
  {
    AccountsAreTrue(b);
    AccountsAreTrue(c);
    hide Delivered, Standing, UsedUp, EventContext.ValidRecv, Waiting, DataOnly, CloseDisputed;
    Chunking.DeliveredFromBytes(AccountOf(b), AccountOf(c));
  }

  /** With the same bytes, a violation, and a refusal of a frame that is no Close, come to both, in the same place. */
  lemma SameBytesSameStop(b: EventContext, c: EventContext)
    requires SameInput(b, c) && (Waiting(b) || !b.stop.Running?) && (Waiting(c) || !c.stop.Running?)
    ensures b.stop.Violated? ==> c.stop.Violated? && c.processed == b.processed
    ensures b.stop.Refused? && b.stop.h.opcode != CLOSE ==>
      c.stop.Refused? && c.stop.h == b.stop.h && c.stop.verdict == b.stop.verdict && c.processed == b.processed
  {
    AccountsAreTrue(b);
    AccountsAreTrue(c);
    hide Delivered, Standing, UsedUp, EventContext.ValidRecv, Waiting;
    Chunking.SameBytesSameStop(AccountOf(b), AccountOf(c));
  }

  /** A Close that one of them met and the other one refused for its text came in pieces to one of them. */
  lemma SplitDecidesClose(b: EventContext, c: EventContext)
    requires SameInput(b, c) && (b.stop.CloseTaken? || b.stop.CloseUnanswered?) && CloseRefused(c.stop)
    ensures |b.stop.pieces| >= 2 || |c.stop.pieces| >= 2
  {
    AccountsAreTrue(b);
    AccountsAreTrue(c);
    NotIdle(b);
    NotIdle(c);
    hide Delivered, Standing, UsedUp, EventContext.ValidRecv, Waiting;
    Chunking.SplitDecidesClose(AccountOf(b), AccountOf(c));
  }

  /**
   The receive half is a function of the bytes: what a context that used up its input, or stopped for a reason of its
   own, has processed and delivered and where it stopped is what one pass over the whole input gives, whatever the
   calls and callbacks were; a Close may depend on how it was cut up.
   */
  lemma ReceivedInOneShot(b: EventContext)
    requires b.ValidRecv() && (Waiting(b) || !b.stop.Running?)
    requires b.frameIn.pipe.taken <= |b.frameIn.pipe.bytes|
    ensures OneShot.Agrees(AccountOf(b), OneShot.Receive(b.cfg, b.frameIn.Fed()))
  {
    hide Delivered, Standing, UsedUp, EventContext.ValidRecv, Waiting, OneShot.Receive, OneShot.Agrees;
    AccountsAreTrue(b);
    OneShot.ReceivedInOneShot(AccountOf(b));
  }

  /**
   A text message that came is delivered if it is well-formed; if it is not, reading ended there, and the Close queued
   has the status 1007 unless the application's own came first or writing had ended.
   */
  lemma TextDecides(b: EventContext, k: nat)
    requires b.ValidSend() && !b.broken && b.ValidRecv() && (Waiting(b) || !b.stop.Running?)
    requires b.frameIn.pipe.taken <= |b.frameIn.pipe.bytes|
    requires OneShot.EndsText(b.cfg, ParseStream(b.frameIn.Fed()).frames, k)
    ensures var fs := ParseStream(b.frameIn.Fed()).frames;
      var m, n, log := OneShot.TextAt(fs, k), |Assemble(fs[..k]).out|, b.hist.log;
      if Utf8.WellFormed(m.payload) then n < |b.delivered| && b.delivered[n] == Deliver(b.cfg.buffering, m)
      else
        && |b.delivered| == n
        && (if Answered(log) then log[|log| - 1].m == Msg(CLOSE, BigEndian(INVALID_DATA, 2))
            else b.closeQueued || !b.writeEnabled)
  {
    hide Delivered, Standing, UsedUp, EventContext.ValidRecv, EventContext.ValidSend, Waiting;
    hide OneShot.TextAt, OneShot.Good, Assemble, ParseStream, JudgeHeader, Utf8.WellFormed, Deliver, BigEndian;
    AccountsAreTrue(b);
    OneShot.TextDecides(AccountOf(b), k);
    if !Utf8.WellFormed(OneShot.TextAt(ParseStream(b.frameIn.Fed()).frames, k).payload) {
      ReadingEndsWithClose(b);
    }
  }

  /** In every run the text check of a Close is the one on the bytes that its chunks left to be checked. */
  lemma CloseOutcome(b: EventContext)
    requires b.ValidRecv()
    ensures b.stop.CloseTaken? && b.processed != [] ==>
      CloseChecked(b.processed[|b.processed| - 1].h, b.stop.payload, b.stop.pieces)
    ensures b.stop.CloseUnanswered? ==> CloseChecked(b.stop.h, b.stop.payload, b.stop.pieces)
    ensures CloseRefused(b.stop) ==>
      && Pieces(b.stop.h, b.stop.got, b.stop.checked, b.stop.pieces)
      && JudgeContent(None, b.stop.h, b.stop.got, CheckedOver(b.stop.h, b.stop.pieces)) == Refuse(INVALID_DATA)
  {
    AccountsAreTrue(b);
    hide EventContext.ValidRecv, Delivered, UsedUp, Waiting, ParseStream, Assemble, CloseChecked, CheckedOver;
    hide JudgeContent;
    hide JudgeHeader, NextIn;
    if CloseRefused(b.stop) {
      CloseVerdict(b.cfg, Assemble(b.processed).open, b.stop.h, b.stop.got, b.stop.checked);
    }
  }

  /**
   What this means for one Close, with status 1000 and the reason U+00E9, in whatever run it comes: a context that met
   a Close did not get this one with its last byte by itself, and one that refused a Close for its text did not get
   this one in one piece.
   */
  lemma SplitCloseRuns(b: EventContext)
    requires b.ValidRecv()
    ensures (b.stop.CloseTaken? || b.stop.CloseUnanswered?) ==> b.stop.pieces != [[3, 232, 195], [169]]
    ensures CloseRefused(b.stop) ==> b.stop.pieces != [[3, 232, 195, 169]]
  {
    hide EventContext.ValidRecv, CloseChecked, Pieces, JudgeContent, Utf8.WellFormed, Utf8.Viable;
    CloseOutcome(b);
    if b.stop.CloseTaken? || b.stop.CloseUnanswered? {
      CloseIsMet(b);
    }
    if b.stop.CloseTaken? {
      HalfReason(b.processed[|b.processed| - 1].h, b.stop.payload, b.stop.pieces);
    } else if b.stop.CloseUnanswered? {
      HalfReason(b.stop.h, b.stop.payload, b.stop.pieces);
    } else if CloseRefused(b.stop) {
      WholeReason(b.stop.h, b.stop.got, b.stop.checked, b.stop.pieces);
    }
  }

  lemma NotIdle(b: EventContext)
    requires b.ValidRecv() && !b.stop.Running?
    ensures !Waiting(b)
  {
    ReadingIsOn(b);
    hide EventContext.ValidRecv;
  }

  /**
   Whoever sent the bytes: what is handed over as text is well-formed text, a Close handed over has no reserved
   status and is the last message, and no message is longer than allowed.
   */
  lemma DeliveredIsChecked(b: EventContext, i: nat)
    requires b.ValidRecv() && i < |b.delivered|
    ensures i < |Assemble(b.processed).out| && MessageOk(b.cfg, Assemble(b.processed).out[i])
    ensures b.delivered[i] == Deliver(b.cfg.buffering, Assemble(b.processed).out[i])
    ensures b.delivered[i].opcode == CLOSE ==> i == |b.delivered| - 1 && b.stop.CloseTaken?
  {
    AccountsAreTrue(b);
    var x := AccountOf(b);
    hide EventContext.ValidRecv, Standing, UsedUp, Waiting, MessageOk, ParseStream, AllFaithful, Assemble, FineFrames;
    PrintParsed(x.fed);
    FaithfulStart(b.processed, ParseStream(x.fed).frames);
    AllDeliveredOk(b.cfg, b.processed);
    CloseComesLast(b.processed, b.stop.CloseTaken?);
  }

  lemma FaithfulStart(fs: seq<Frame>, gs: seq<Frame>)
    requires fs <= gs && AllFaithful(gs)
    ensures AllFaithful(fs)
  {
  }

  // -- Runs --------------------------------------------------------------

  /** The two contexts share nothing but their pipes. */
  predicate Apart(a: EventContext, b: EventContext) {
    && a != b && a.frameOut != b.frameOut && a.frameIn != b.frameIn
    && a.frameOut.oheader != b.frameOut.oheader && a.frameOut.oheader != b.frameIn.ibuf && a.frameOut.oheader != b.obuf
    && a.frameIn.ibuf != b.frameOut.oheader && a.frameIn.ibuf != b.frameIn.ibuf && a.frameIn.ibuf != b.obuf
    && a.obuf != b.frameOut.oheader && a.obuf != b.frameIn.ibuf && a.obuf != b.obuf
    && a.frameOut.pipe == b.frameIn.pipe && b.frameOut.pipe == a.frameIn.pipe && a.frameOut.pipe != a.frameIn.pipe
    && b.cfg.server == !a.cfg.server
  }

  ghost predicate ValidSide(a: EventContext)
    reads a, a.frameOut, a.frameOut.oheader, a.frameOut.pipe, a.obuf, a.frameIn, a.frameIn.ibuf, a.frameIn.pipe
  {
    a.ValidSend() && a.ValidRecv() && AtRest(a.SView())
  }

  /** The application at a does something. */
  method ApplicationOwn(a: EventContext)
    requires a.ValidSend() && a.ValidRecv() && AtRest(a.SView())
    modifies a
    ensures a.ValidSend() && a.ValidRecv() && AtRest(a.SView())
    ensures old(a.hist.accepted) <= a.hist.accepted && a.delivered == old(a.delivered)
    ensures StillStuck(old(a.SView()), a.SView())
  {
    hide EventContext.ValidSend, EventContext.SView, EventContext.RView, EventContext.RecvHistory, AtRest;
    hide FrameIn.FrameReceiver.Valid, Mirrors, EventContext.CloseRecorded, EventContext.ChunksFine, StillStuck;
    BufferFits(a);
    a.ApplicationTurn();
    a.OnlyQueued();
  }

  method ApplicationStep(a: EventContext, b: EventContext)
    requires Apart(a, b) && ValidSide(a) && ValidSide(b)
    modifies a
    ensures ValidSide(a) && ValidSide(b) && old(a.hist.accepted) <= a.hist.accepted && a.delivered == old(a.delivered)
    ensures StillStuck(old(a.SView()), a.SView())
  {
    hide EventContext.ValidSend, EventContext.SView, EventContext.ValidRecv, AtRest, StillStuck;
    ApplicationOwn(a);
  }

  lemma BufferFits(a: EventContext)
    requires a.ValidSend()
    ensures a.obuflimit <= a.obuf.Length && (a.writeEnabled ==> !a.broken)
  {
    hide Inv, EventContext.Writing;
  }

  /** A send call with something to send, n bytes being out, got on, unless a source had nothing to give. */
  ghost predicate GotOn(a: EventContext, wanted: bool, v: SendView, n: nat)
    reads a, a.frameOut, a.frameOut.pipe`bytes, a.frameOut.pipe`overran, a.obuf
  {
    && a.obuflimit <= a.obuf.Length
    && (if !wanted then a.SView() == v && |a.frameOut.pipe.bytes| == n && !a.WantWrite()
        else a.frameOut.pipe.lively ==> a.starved || Nearer(v, n, a.SView(), |a.frameOut.pipe.bytes|))
  }

  /** a sends what it can; what it received stays as it is. */
  method SendOwn(a: EventContext)
    requires a.ValidSend() && a.ValidRecv() && AtRest(a.SView())
    modifies a, a.frameOut, a.frameOut.oheader, a.frameOut.pipe`bytes, a.frameOut.pipe`stalled
    modifies a.frameOut.pipe`overran, a.obuf
    ensures a.ValidSend() && a.ValidRecv() && AtRest(a.SView())
    ensures a.hist.accepted == old(a.hist.accepted) && a.delivered == old(a.delivered)
    ensures old(a.frameOut.pipe.bytes) <= a.frameOut.pipe.bytes
    ensures !a.broken ==> StillStuck(old(a.SView()), a.SView())
    ensures a.writeEnabled && !a.frameOut.pipe.stalled ==> AllEndedSent(a.SView())
    ensures a.writeEnabled && a.WantWrite() ==> a.frameOut.pipe.stalled || a.starved
    ensures a.writeEnabled ==> GotOn(a, old(a.WantWrite()), old(a.SView()), old(|a.frameOut.pipe.bytes|))
  {
    hide EventContext.ValidSend, EventContext.SView, EventContext.RView, EventContext.ValidRecv, AtRest;
    hide StillStuck, AllEndedSent, Nearer;
    a.OwnObjects();
    var _ := a.EventSend();
    BufferFits(a);
    a.Undisturbed();
  }

  /** a sends what it can. */
  method SendStep(a: EventContext, b: EventContext)
    requires Apart(a, b) && ValidSide(a) && ValidSide(b)
    modifies a, a.frameOut, a.frameOut.oheader, a.frameOut.pipe`bytes, a.frameOut.pipe`stalled
    modifies a.frameOut.pipe`overran, a.obuf
    ensures ValidSide(a) && ValidSide(b) && a.hist.accepted == old(a.hist.accepted) && a.delivered == old(a.delivered)
    ensures !a.broken ==> StillStuck(old(a.SView()), a.SView())
    ensures a.writeEnabled && !a.frameOut.pipe.stalled ==> AllEndedSent(a.SView())
    ensures a.writeEnabled && a.WantWrite() ==> a.frameOut.pipe.stalled || a.starved
    ensures a.writeEnabled ==> GotOn(a, old(a.WantWrite()), old(a.SView()), old(|a.frameOut.pipe.bytes|))
  {
    hide EventContext.ValidSend, EventContext.SView, EventContext.RView, EventContext.ValidRecv, AtRest;
    hide StillStuck, AllEndedSent, GotOn;
    SendOwn(a);
    b.Undisturbed();
  }

  lemma NowWaiting(b: EventContext)
    requires b.ValidRecv() && b.readEnabled
    requires ParseStream(b.frameIn.Fed()) == Parse(b.processed, b.frameIn.PendingTail())
    ensures Waiting(b)
  {
    hide ParseStream, History, Mirrors, EventContext.StopJustified, RepliesOk, CloseLast, TailFine;
    hide EventContext.ChunksFine;
  }

  /** a receives what it can. */
  method RecvOwn(a: EventContext)
    requires a.ValidSend() && a.ValidRecv() && AtRest(a.SView())
    modifies a, a.frameIn, a.frameIn.ibuf, a.frameIn.pipe`taken
    ensures a.ValidSend() && a.ValidRecv() && AtRest(a.SView())
    ensures old(a.hist.accepted) <= a.hist.accepted && old(a.delivered) <= a.delivered
    ensures StillStuck(old(a.SView()), a.SView()) && (a.readEnabled ==> Waiting(a))
    ensures a.readEnabled ==> a.ReadOn(old(a.frameIn.pipe.taken))
  {
    hide EventContext.ValidSend, EventContext.SView, EventContext.ValidRecv, AtRest, Waiting, StillStuck;
    BufferFits(a);
    a.OwnObjects();
    var _ := a.EventRecv();
    a.OnlyQueued();
    if a.readEnabled {
      NowWaiting(a);
    }
  }

  method RecvStep(a: EventContext, b: EventContext)
    requires Apart(a, b) && ValidSide(a) && ValidSide(b)
    modifies a, a.frameIn, a.frameIn.ibuf, a.frameIn.pipe`taken
    ensures ValidSide(a) && ValidSide(b) && old(a.hist.accepted) <= a.hist.accepted && old(a.delivered) <= a.delivered
    ensures StillStuck(old(a.SView()), a.SView()) && (a.readEnabled ==> Waiting(a))
    ensures a.readEnabled ==> a.ReadOn(old(a.frameIn.pipe.taken))
  {
    hide EventContext.ValidSend, EventContext.SView, EventContext.ValidRecv, AtRest, Waiting, StillStuck;
    RecvOwn(a);
  }

  /** The bytes still to come of the frame under way when n bytes are out. */
  ghost function FrameLeft(v: SendView, n: nat): int {
    if v.cur.Busy? then |StreamBytes(v.frames)| + |EncodeHeader(v.cur.h)| + v.cur.h.len - n else 0
  }

  lemma NearerIsLess(v: SendView, n: nat, w: SendView, m: nat)
    requires Nearer(v, n, w, m)
    ensures Work(w) <= Work(v)
    ensures Work(w) == Work(v) ==> w.cur.Busy? && (v.cur.Busy? ==> FrameLeft(w, m) < FrameLeft(v, n))
  {
    hide Work, StreamBytes, EncodeHeader;
  }

  /** No more than the whole frame is out. */
  lemma FrameLeftIsPositive(a: EventContext)
    requires a.ValidSend() && !a.broken
    ensures a.obuflimit <= a.obuf.Length && FrameLeft(a.SView(), |a.frameOut.pipe.bytes|) >= 0
  {
    hide Inv, StreamBytes, EncodeHeader, EventContext.Writing;
    if a.frameOut.cur.Busy? {
      BusyFits(a.SView());
    }
  }

  /**
   One exchange: a sends what it can, then b reads what it can. When b has nothing more to read, because it has caught
   up or has met a Close, it was given exactly the messages that a sent completely; these are all that were queued,
   unless a still has data messages to send. If nothing held a up and its writing has not ended, it has none.
   */
  method Exchange(a: EventContext, b: EventContext)
    requires Apart(a, b) && ValidSide(a) && ValidSide(b) && b.cfg.buffering
    modifies a, a.frameOut, a.frameOut.oheader, a.frameOut.pipe, a.obuf
    modifies b, b.frameIn, b.frameIn.ibuf
    ensures ValidSide(a) && ValidSide(b)
    ensures b.readEnabled && b.frameIn.pipe.taken == |b.frameIn.pipe.bytes| ==> ReadOut(b)
    ensures a.writeEnabled && !a.frameOut.pipe.stalled && !a.starved ==> !a.broken && Drained(a)
    ensures !a.broken && ReadOut(b) ==> DataOnly(b.delivered) == Data(Assemble(a.frameOut.done).out)
    ensures !a.broken && ReadOut(b) && Drained(a) ==> DataOnly(b.delivered) == a.hist.accepted
  {
    hide EventContext.ValidSend, EventContext.SView, EventContext.ValidRecv, AtRest, DataOnly, Waiting;
    hide StillStuck, AllEndedSent;
    hide EventContext.WantWrite, Drained, Data, Assemble;
    SendStep(a, b);
    RecvStep(b, a);
    if a.writeEnabled {
      NothingWaits(a);
    }
    ExchangeResult(a, b);
  }

  lemma NothingWaits(a: EventContext)
    requires a.ValidSend() && a.writeEnabled
    ensures !a.broken && (!a.WantWrite() ==> Drained(a))
  {
    hide Inv, EventContext.Writing;
  }

  /** Another exchange may bring something over. */
  predicate Unfinished(a: EventContext, b: EventContext)
    reads a, b, b.frameIn, b.frameIn.pipe
  {
    && a.writeEnabled && !a.starved && b.readEnabled
    && (a.WantWrite() || b.frameIn.pipe.taken < |b.frameIn.pipe.bytes|)
  }

  /**
   Where every send call accepts a byte, and every recv call gives one when there is one, finitely many exchanges
   bring over all that is queued: each of them leaves less to do, or as much with more bytes out, or nothing to send
   and less to read. In the end b was given all messages, unless a's writing or b's reading has ended, or the source
   of a fragmented message has nothing to give.
   */
  method ExchangeAll(a: EventContext, b: EventContext)
    requires Apart(a, b) && ValidSide(a) && ValidSide(b) && b.cfg.buffering && a.frameOut.pipe.lively
    modifies a, a.frameOut, a.frameOut.oheader, a.frameOut.pipe, a.obuf
    modifies b, b.frameIn, b.frameIn.ibuf
    ensures ValidSide(a) && ValidSide(b) && a.hist.accepted == old(a.hist.accepted)
    ensures !Unfinished(a, b)
    ensures a.writeEnabled && !a.starved && b.readEnabled ==> DataOnly(b.delivered) == a.hist.accepted
  {
    hide ValidSide, RestOf, Unfinished, Apart, Waiting, DataOnly;
    OneMore(a, b);
    while Unfinished(a, b)
      invariant ValidSide(a) && ValidSide(b) && a.hist.accepted == old(a.hist.accepted)
      invariant b.readEnabled ==> Waiting(b)
      decreases Unfinished(a, b), RestOf(a, b).work, RestOf(a, b).idle, RestOf(a, b).frame, RestOf(a, b).unread
    {
      OneMore(a, b);
    }
    AllThere(a, b);
  }

  lemma InputInBounds(b: EventContext)
    requires b.ValidRecv()
    ensures b.frameIn.pipe.taken <= |b.frameIn.pipe.bytes|
  {
    hide History, EventContext.StopJustified, RepliesOk, CloseLast, Mirrors, ParseStream, EventContext.ChunksFine;
    hide FrameIn.FrameReceiver.Valid;
  }

  /** What is left: work, a frame to begin, bytes of the frame under way, bytes to read. */
  datatype Rest = Rest(work: nat, idle: nat, frame: int, unread: int)

  ghost function RestOf(a: EventContext, b: EventContext): Rest
    reads a, a.frameOut, a.frameOut.pipe`bytes, a.frameOut.pipe`overran, a.obuf, b, b.frameIn, b.frameIn.pipe
  {
    if a.obuflimit > a.obuf.Length then Rest(0, 0, 0, 0)
    else Rest(Work(a.SView()), if a.SView().cur.Idle? then 1 else 0, FrameLeft(a.SView(), |a.frameOut.pipe.bytes|),
              |b.frameIn.pipe.bytes| - b.frameIn.pipe.taken)
  }

  /** In lexicographic order. */
  predicate Less(r: Rest, s: Rest) {
    r.work < s.work || (r.work == s.work &&
      (r.idle < s.idle || (r.idle == s.idle && (r.frame < s.frame || (r.frame == s.frame && r.unread < s.unread)))))
  }

  /** One exchange, and what it brought. */
  method OneMore(a: EventContext, b: EventContext)
    requires Apart(a, b) && ValidSide(a) && ValidSide(b) && a.frameOut.pipe.lively
    modifies a, a.frameOut, a.frameOut.oheader, a.frameOut.pipe, a.obuf
    modifies b, b.frameIn, b.frameIn.ibuf
    ensures ValidSide(a) && ValidSide(b) && a.hist.accepted == old(a.hist.accepted)
    ensures b.readEnabled ==> Waiting(b)
    ensures old(Unfinished(a, b)) && Unfinished(a, b) ==> Less(RestOf(a, b), old(RestOf(a, b)))
    ensures old(Unfinished(a, b)) ==> old(RestOf(a, b)).frame >= 0 && old(RestOf(a, b)).unread >= 0
  {
    hide EventContext.ValidSend, EventContext.SView, EventContext.ValidRecv, AtRest, Waiting, StillStuck;
    hide AllEndedSent;
    hide Work, FrameLeft, Nearer;
    BufferFits(a);
    InputInBounds(b);
    if a.writeEnabled {
      FrameLeftIsPositive(a);
    }
    ghost var wanted, v, n := a.WantWrite(), a.SView(), |a.frameOut.pipe.bytes|;
    SendStep(a, b);
    if wanted && a.writeEnabled && !a.starved {
      NearerIsLess(v, n, a.SView(), |a.frameOut.pipe.bytes|);
    }
    RecvStep(b, a);
    BufferFits(a);
  }

  lemma AllThere(a: EventContext, b: EventContext)
    requires Apart(a, b) && ValidSide(a) && ValidSide(b) && b.cfg.buffering
    requires !Unfinished(a, b) && (b.readEnabled ==> Waiting(b))
    ensures a.writeEnabled && !a.starved && b.readEnabled ==> DataOnly(b.delivered) == a.hist.accepted
  {
    hide EventContext.ValidSend, EventContext.SView, EventContext.ValidRecv, AtRest, Waiting, DataOnly, Drained;
    hide EventContext.WantWrite;
    if a.writeEnabled && !a.starved && b.readEnabled {
      NothingWaits(a);
      InputInBounds(b);
      ExchangeResult(a, b);
    }
  }

  lemma ExchangeResult(a: EventContext, b: EventContext)
    requires Apart(a, b) && ValidSide(a) && ValidSide(b) && b.cfg.buffering
    ensures !a.broken && ReadOut(b) ==> DataOnly(b.delivered) == Data(Assemble(a.frameOut.done).out)
    ensures !a.broken && ReadOut(b) && Drained(a) ==> DataOnly(b.delivered) == a.hist.accepted
  {
    hide EventContext.ValidSend, EventContext.ValidRecv, AtRest, DataOnly, Data, Assemble, ReadOut, Drained;
    if !a.broken && ReadOut(b) {
      CompletedIsDelivered(a, b);
      if Drained(a) {
        DrainedDeliversAll(a, b);
      }
    }
  }

  /** Any step at a. */
  method Step(a: EventContext, b: EventContext)
    requires Apart(a, b) && ValidSide(a) && ValidSide(b)
    modifies a, a.frameOut, a.frameOut.oheader, a.frameOut.pipe, a.obuf, a.frameIn, a.frameIn.ibuf
    modifies a.frameIn.pipe`taken
    ensures ValidSide(a) && ValidSide(b) && old(a.hist.accepted) <= a.hist.accepted && old(a.delivered) <= a.delivered
    ensures !a.broken ==> StillStuck(old(a.SView()), a.SView())
  {
    hide *;
    var kind: int := *;
    if kind == 0 {
      ApplicationStep(a, b);
    } else if kind == 1 {
      SendStep(a, b);
    } else {
      RecvStep(a, b);
    }
  }

  lemma SafetyHolds(a: EventContext, b: EventContext)
    requires Apart(a, b) && ValidSide(a) && ValidSide(b) && b.cfg.buffering
    ensures !a.broken ==> DataOnly(b.delivered) <= a.hist.accepted
    ensures !a.broken ==> Pongs(Replies(b.hist.log)) <= Pings(LogMsgs(a.hist.log))
  {
    hide EventContext.ValidSend, EventContext.ValidRecv, AtRest, DataOnly, Pongs, Pings, Replies, LogMsgs;
    if !a.broken {
      DeliveredIsPrefix(a, b);
      PongsAnswerPings(a, b);
    }
  }

  /** A run of a server and a client: any number of steps of either side, in any order. */
  method Session(serverCfg: Config, clientCfg: Config) returns (server: EventContext, client: EventContext)
    requires serverCfg.server && serverCfg.buffering && serverCfg.maxLength < COUNTER_LIMIT
    requires !clientCfg.server && clientCfg.buffering && clientCfg.maxLength < COUNTER_LIMIT
    ensures !client.broken ==> DataOnly(server.delivered) <= client.hist.accepted
    ensures !server.broken ==> DataOnly(client.delivered) <= server.hist.accepted
  {
    var lively: bool := *;
    server, client := Connect(serverCfg, clientCfg, lively);
    hide *;
    var n: int := *;
    while n > 0
      invariant Apart(server, client) && Apart(client, server) && ValidSide(server) && ValidSide(client)
      invariant server.cfg == serverCfg && client.cfg == clientCfg
    {
      var ours: bool := *;
      if ours {
        Step(server, client);
      } else {
        Step(client, server);
      }
      n := n - 1;
    }
    SafetyHolds(server, client);
    SafetyHolds(client, server);
  }

  /** Two fresh contexts on two pipes. */
  method Connect(serverCfg: Config, clientCfg: Config, lively: bool)
    returns (server: EventContext, client: EventContext)
    requires serverCfg.server && serverCfg.maxLength < COUNTER_LIMIT
    requires !clientCfg.server && clientCfg.maxLength < COUNTER_LIMIT
    ensures forall c | c == server || c == client ::
      fresh(c) && fresh(c.frameOut) && fresh(c.frameOut.oheader) && fresh(c.frameOut.pipe) && fresh(c.obuf)
      && fresh(c.frameIn) && fresh(c.frameIn.ibuf) && fresh(c.frameIn.pipe)
    ensures Apart(server, client) && Apart(client, server) && ValidSide(server) && ValidSide(client)
    ensures server.cfg == serverCfg && client.cfg == clientCfg
    ensures Feeds(server, client) && Feeds(client, server)
  {
    hide EventContext.ValidSend, EventContext.ValidRecv, EventContext.SView, AtRest;
    var down := new Pipe(lively);
    var up := new Pipe(lively);
    server := new EventContext(serverCfg, down, up);
    client := new EventContext(clientCfg, up, down);
  }
}
