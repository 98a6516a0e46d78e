/**
 The state of the send half as a value, and the invariant that every step of the send engine keeps:
 frame discipline, content, layer coupling, counters and the take-over by Close.
 */
module SendModel {
  import opened Bytes
  import opened Headers
  import opened Stream
  import opened Protocol
  import opened FrameOut

  /** A queued outgoing message; a fragmented one is drawn from its source piece by piece. */
  datatype OMsg =
    | Whole(opcode: nat, data: seq<byte>)
    | Fragmented(opcode: nat, fin: bool, source: seq<byte>)

  datatype SendView = SendView(
    server: bool,
    sendQ: seq<OMsg>, ctrlQ: seq<OMsg>, omsg: Option<OMsg>,
    obuf: seq<byte>, mark: nat,            // the fragment in the buffer, and how much of it is out
    oplen: nat, opoff: nat,
    writeEnabled: bool, closeQueued: bool,
    count: nat, length: nat,
    frames: seq<Frame>, cur: Progress,     // what the printer did
    ended: set<nat>,                       // fragmented messages whose end a read that returned bytes reported
    hist: SendHistory)

  /** What was asked of the send half so far. */
  datatype SendHistory = SendHistory(
    accepted: seq<Msg>,                    // every data message ever queued, in order
    frags: set<nat>,                       // which of these were queued as fragmented
    log: seq<Logged>,                      // every control message ever queued, in order
    discarded: seq<OMsg>,                  // control messages dropped in favour of Close
    closeAt: nat)                          // frames begun when Close was queued

  // -- Queue discipline --------------------------------------------------

  predicate CtrlOk(m: OMsg) { m.Whole? && IsCtrlOpcode(m.opcode) && |m.data| <= 125 }

  /** A data message none of which has been sent. */
  predicate Unstarted(m: OMsg) { IsDataOpcode(m.opcode) && (m.Fragmented? ==> !m.fin) }

  /** The data message whose turn it is: a continuation exactly when a message is open. */
  predicate Front(open: Option<Msg>, m: OMsg) {
    && (if open.Some? then m.Fragmented? && m.opcode == CONTINUATION else IsDataOpcode(m.opcode))
    && (m.Fragmented? && m.fin ==> m.source == [])
  }

  /** The data messages not yet completely sent, in order. */
  function Line(v: SendView): seq<OMsg> {
    if v.omsg.Some? && !IsControl(v.omsg.value.opcode) then [v.omsg.value] + v.sendQ else v.sendQ
  }

  predicate LineOk(open: Option<Msg>, line: seq<OMsg>) {
    && (line == [] ==> open.None?)
    && (line != [] ==> Front(open, line[0]))
    && forall i | 1 <= i < |line| :: Unstarted(line[i])
  }

  predicate QueuesOk(v: SendView) {
    && (forall i | 0 <= i < |v.ctrlQ| :: CtrlOk(v.ctrlQ[i]))
    && (forall i | 0 <= i < |v.sendQ| :: v.sendQ[i].Fragmented? ==> !v.sendQ[i].fin)
    && (v.omsg.Some? && IsControl(v.omsg.value.opcode) ==> CtrlOk(v.omsg.value))
    && LineOk(Assemble(v.frames).open, Line(v))
  }

  // -- Content -----------------------------------------------------------

  function Body(m: OMsg): seq<byte> {
    match m case Whole(_, data) => data case Fragmented(_, _, source) => source
  }

  function Message(m: OMsg): Msg { Msg(m.opcode, Body(m)) }

  /** The message in front, with what is already sent of it and what is in the buffer. */
  function FrontMessage(open: Option<Msg>, obuf: seq<byte>, m: OMsg): Msg {
    match open
    case Some(p) => Msg(p.opcode, p.payload + obuf + Body(m))
    case None => Msg(m.opcode, obuf + Body(m))
  }

  function Messages(ms: seq<OMsg>): (r: seq<Msg>)
    ensures |r| == |ms|
  {
    seq(|ms|, i requires 0 <= i < |ms| => Message(ms[i]))
  }

  /** The messages still to be completed by the peer. */
  function Outstanding(open: Option<Msg>, obuf: seq<byte>, line: seq<OMsg>): seq<Msg> {
    if line == [] then [] else [FrontMessage(open, obuf, line[0])] + Messages(line[1..])
  }

  /** The frames sent are legal, and reassemble to the accepted messages up to those outstanding. */
  predicate ContentOk(v: SendView) {
    var a := Assemble(v.frames);
    a.legal && v.hist.accepted == Data(a.out) + Outstanding(a.open, v.obuf, Line(v))
  }

  // -- Layer coupling ----------------------------------------------------

  /** The header the event layer means for the message m with n payload bytes in the frame. */
  predicate HeaderMeant(server: bool, m: OMsg, n: nat, h: Header) {
    && WellFormed(h) && h.rsv == 0 && h.opcode == m.opcode && h.len == n
    && h.key.Some? == !server && h.fin == (m.Whole? || m.fin)
  }

  predicate Coupled(v: SendView) {
    match v.cur
    case Idle =>
      && v.mark == 0
      && (match v.omsg
          case None => v.obuf == []
          case Some(Whole(_, data)) => v.opoff == 0 && v.oplen == |data| && v.obuf == []
          case Some(Fragmented(_, fin, _)) => if v.obuf == [] then !fin else v.oplen == |v.obuf|)
    case Busy(h, mask, sent) =>
      && v.omsg.Some? && mask == h.key && v.oplen == h.len
      && match v.omsg.value
         case Whole(_, data) =>
           HeaderMeant(v.server, v.omsg.value, |data|, h)
           && v.opoff <= |data| && sent == data[..v.opoff] && v.obuf == [] && v.mark == 0
         case Fragmented(_, fin, source) =>
           HeaderMeant(v.server, v.omsg.value, |v.obuf|, h)
           && v.mark <= |v.obuf| && sent == v.obuf[..v.mark] && v.obuf != []
  }

  /** Every frame sent reads as meant: faithful, no extension bits, masked exactly by a client. */
  predicate SentOk(server: bool, f: Frame) {
    Faithful(f) && f.h.rsv == 0 && f.h.key.Some? == !server
  }

  predicate FramesOk(v: SendView) {
    forall i | 0 <= i < |v.frames| :: SentOk(v.server, v.frames[i])
  }

  // -- Counters ----------------------------------------------------------

  function DataLength(m: OMsg): nat {
    match m case Whole(_, data) => |data| case Fragmented(_, _, _) => 0
  }

  function Size(ms: seq<OMsg>): nat {
    if ms == [] then 0 else DataLength(ms[0]) + Size(ms[1..])
  }

  function InFlight(omsg: Option<OMsg>): seq<OMsg> {
    match omsg case None => [] case Some(m) => [m]
  }

  predicate CountersOk(v: SendView) {
    && v.count == |v.sendQ| + |v.ctrlQ| + |InFlight(v.omsg)| + |v.hist.discarded|
    && v.length == Size(v.sendQ) + Size(v.ctrlQ) + Size(InFlight(v.omsg)) + Size(v.hist.discarded)
  }

  // -- Close takes over --------------------------------------------------

  predicate HasClose(ms: seq<OMsg>) {
    exists i | 0 <= i < |ms| :: ms[i].opcode == CLOSE
  }

  /** Number of frame headers the printer was given so far. */
  function Begun(v: SendView): nat {
    |v.frames| + if v.cur.Busy? then 1 else 0
  }

  function BegunOpcode(v: SendView, i: nat): nat
    requires i < Begun(v)
  {
    if i < |v.frames| then v.frames[i].h.opcode else v.cur.h.opcode
  }

  predicate ClosePending(v: SendView) {
    HasClose(v.ctrlQ) || (v.omsg.Some? && v.omsg.value.opcode == CLOSE)
  }

  /** A Close frame is the last one ever. */
  predicate CloseIsLast(v: SendView) {
    forall i | 0 <= i < |v.frames| && v.frames[i].h.opcode == CLOSE ::
      i == |v.frames| - 1 && !v.writeEnabled && v.cur.Idle?
  }

  /** After the frame that may have been under way when Close was queued, only a Close frame begins. */
  predicate CloseIsNext(v: SendView) {
    && v.hist.closeAt <= Begun(v) <= v.hist.closeAt + 1
    && (Begun(v) == v.hist.closeAt + 1 ==> BegunOpcode(v, v.hist.closeAt) == CLOSE)
  }

  predicate CloseOk(v: SendView) {
    && CloseIsLast(v)
    && (v.closeQueued ==> CloseIsNext(v))
    && (v.closeQueued && v.writeEnabled ==> ClosePending(v))
  }

  // -- Control messages --------------------------------------------------

  /** The control messages sent completely. */
  function ControlSent(frames: seq<Frame>): seq<Msg> { Control(Assemble(frames).out) }

  function ControlInFlight(omsg: Option<OMsg>): seq<OMsg> {
    match omsg case None => [] case Some(m) => if IsControl(m.opcode) then [m] else []
  }

  /**
   Every control message queued was sent, dropped in favour of Close, or is still there, in order;
   behind the Close that ended queueing nothing was queued.
   */
  predicate LogOk(sent: seq<Msg>, dropped: seq<OMsg>, current: seq<OMsg>, waiting: seq<OMsg>,
                  closeQueued: bool, writeEnabled: bool, log: seq<Logged>) {
    && LogMsgs(log) == Settled(sent, Messages(dropped)) + Messages(current) + Messages(waiting)
    && (dropped != [] ==> closeQueued && forall i | 0 <= i < |current| :: current[i].opcode == CLOSE)
    && (closeQueued ==> log != [] && log[|log| - 1].m.opcode == CLOSE)
    && (writeEnabled ==> !EndsInClose(sent))
  }

  predicate ControlOk(v: SendView) {
    LogOk(ControlSent(v.frames), v.hist.discarded, ControlInFlight(v.omsg), v.ctrlQ,
          v.closeQueued, v.writeEnabled, v.hist.log)
  }

  // -- Ends of fragmented messages ---------------------------------------

  /** Number of data messages sent completely. */
  function DataSent(frames: seq<Frame>): nat { |Data(Assemble(frames).out)| }

  /**
   Of the fragmented messages, those sent completely have ended; the one in front has ended exactly when its next
   frame is its last; those behind have not. n data messages have been sent completely, line is what is left.
   */
  predicate Ends(n: nat, line: seq<OMsg>, frags: set<nat>, ended: set<nat>) {
    && (forall j | 0 <= j < |line| :: n + j in frags <==> line[j].Fragmented?)
    && (forall i | i in ended :: i in frags && i <= n)
    && (forall i | i in frags :: i < n ==> i in ended)
    && (n in ended <==> line != [] && line[0].Fragmented? && line[0].fin)
    && (forall i | i in frags :: i < n + |line|)
  }

  predicate EndsOk(v: SendView) { Ends(DataSent(v.frames), Line(v), v.hist.frags, v.ended) }

  predicate Inv(v: SendView) {
    QueuesOk(v) && ContentOk(v) && Coupled(v) && FramesOk(v) && CountersOk(v) && CloseOk(v) && ControlOk(v) && EndsOk(v)
  }

  /**
   Between two rounds of the engine no message or fragment waits for its header,
   and a fragment under way is not completely out.
   */
  predicate AtRest(v: SendView) {
    v.writeEnabled ==>
      && (v.cur.Idle? ==> v.obuf == [] && (v.omsg.Some? ==> v.omsg.value.Fragmented?))
      && (v.cur.Busy? && v.omsg.Some? && v.omsg.value.Fragmented? ==> v.mark < |v.obuf|)
  }

  const NO_HISTORY := SendHistory([], {}, [], [], 0)

  function Initial(server: bool): SendView {
    SendView(server, [], [], None, [], 0, 0, 0, true, false, 0, 0, [], Idle, {}, NO_HISTORY)
  }

  lemma InitialInv(server: bool)
    ensures Inv(Initial(server))
  {
  }

  // -- Consequences ------------------------------------------------------

  /** The messages the peer can complete are accepted messages, in order. */
  lemma SentIsPrefix(v: SendView)
    requires Inv(v)
    ensures Assemble(v.frames).legal && Data(Assemble(v.frames).out) <= v.hist.accepted
  {
    hide Assemble, Data, Outstanding, QueuesOk, Coupled, FramesOk, CountersOk, CloseOk, ControlOk, EndsOk;
  }

  /** When nothing is outstanding, everything accepted was sent. */
  lemma DrainedSentAll(v: SendView)
    requires Inv(v) && Line(v) == []
    ensures Data(Assemble(v.frames).out) == v.hist.accepted
  {
    hide Assemble, Data, QueuesOk, Coupled, FramesOk, CountersOk, CloseOk, ControlOk, EndsOk;
  }

  /** A Close frame that is out was the last frame, and writing has ended. */
  lemma CloseEndsWriting(v: SendView, i: nat)
    requires Inv(v) && i < |v.frames| && v.frames[i].h.opcode == CLOSE
    ensures i == |v.frames| - 1 && v.cur.Idle? && !v.writeEnabled
  {
    hide QueuesOk, ContentOk, Coupled, FramesOk, CountersOk, ControlOk, EndsOk;
  }

  /** From the moment Close is queued at most the frame already begun goes out before the Close frame. */
  lemma CloseComesNext(v: SendView)
    requires Inv(v) && v.closeQueued
    ensures |v.frames| <= v.hist.closeAt + 1
    ensures |v.frames| == v.hist.closeAt + 1 ==> v.frames[v.hist.closeAt].h.opcode == CLOSE
    ensures v.writeEnabled ==> ClosePending(v)
  {
    hide QueuesOk, ContentOk, Coupled, FramesOk, CountersOk, CloseIsLast, ClosePending, ControlOk, EndsOk;
  }

  // -- The log and the ends, step by step --------------------------------

  lemma LogQueued(sent: seq<Msg>, dropped: seq<OMsg>, current: seq<OMsg>, waiting: seq<OMsg>, writeEnabled: bool,
                  log: seq<Logged>, m: OMsg, reply: bool)
    requires LogOk(sent, dropped, current, waiting, false, writeEnabled, log)
    ensures LogOk(sent, dropped, current, waiting + [m], false, writeEnabled, log + [Logged(Message(m), reply)])
  {
    hide Settled, Message;
    LogMsgsSnoc(log, Logged(Message(m), reply));
    MessagesSnoc(waiting, m);
    hide Messages, LogMsgs;
    var front := Settled(sent, Messages(dropped)) + Messages(current);
    assert (front + Messages(waiting)) + [Message(m)] == front + (Messages(waiting) + [Message(m)]);
  }

  lemma LogMarked(sent: seq<Msg>, dropped: seq<OMsg>, current: seq<OMsg>, waiting: seq<OMsg>, writeEnabled: bool,
                  log: seq<Logged>)
    requires LogOk(sent, dropped, current, waiting, false, writeEnabled, log)
    requires log != [] && log[|log| - 1].m.opcode == CLOSE
    ensures LogOk(sent, dropped, current, waiting, true, writeEnabled, log)
  {
  }

  lemma LogStopped(sent: seq<Msg>, dropped: seq<OMsg>, current: seq<OMsg>, waiting: seq<OMsg>, closeQueued: bool,
                   writeEnabled: bool, log: seq<Logged>)
    requires LogOk(sent, dropped, current, waiting, closeQueued, writeEnabled, log)
    ensures LogOk(sent, dropped, current, waiting, closeQueued, false, log)
  {
  }

  lemma MessagesCons(m: OMsg, ms: seq<OMsg>)
    ensures Messages([m]) == [Message(m)] && Messages([m] + ms) == [Message(m)] + Messages(ms) && Messages([]) == []
  {
  }

  lemma LogPopped(sent: seq<Msg>, dropped: seq<OMsg>, waiting: seq<OMsg>, closeQueued: bool, writeEnabled: bool,
                  log: seq<Logged>)
    requires LogOk(sent, dropped, [], waiting, closeQueued, writeEnabled, log) && waiting != []
    requires closeQueued ==> waiting[0].opcode == CLOSE
    ensures LogOk(sent, dropped, [waiting[0]], waiting[1..], closeQueued, writeEnabled, log)
  {
    hide Settled, Message;
    MessagesCons(waiting[0], waiting[1..]);
    hide Messages, LogMsgs;
    assert [waiting[0]] + waiting[1..] == waiting;
    var front := Settled(sent, Messages(dropped));
    var m, rest := Message(waiting[0]), Messages(waiting[1..]);
    assert (front + []) + ([m] + rest) == (front + [m]) + rest;
  }

  lemma Shifted(a: seq<Msg>, b: seq<Msg>, m: Msg, c: seq<Msg>)
    ensures ((a + b) + []) + ([m] + c) == ((a + (b + [m])) + []) + c
  {
  }

  lemma LogDropped(sent: seq<Msg>, dropped: seq<OMsg>, waiting: seq<OMsg>, log: seq<Logged>)
    requires LogOk(sent, dropped, [], waiting, true, true, log) && waiting != []
    ensures LogOk(sent, dropped + [waiting[0]], [], waiting[1..], true, true, log)
  {
    hide Message, Messages, LogMsgs;
    MessagesCons(waiting[0], waiting[1..]);
    MessagesSnoc(dropped, waiting[0]);
    assert [waiting[0]] + waiting[1..] == waiting;
    hide EndsInClose;
    Shifted(sent, Messages(dropped), Message(waiting[0]), Messages(waiting[1..]));
  }

  lemma LogSent(sent: seq<Msg>, dropped: seq<OMsg>, m: OMsg, waiting: seq<OMsg>, closeQueued: bool, log: seq<Logged>)
    requires LogOk(sent, dropped, [m], waiting, closeQueued, true, log)
    ensures LogOk(sent + [Message(m)], dropped, [], waiting, closeQueued, m.opcode != CLOSE, log)
  {
    MessagesCons(m, []);
    hide Messages, LogMsgs;
    var sent' := sent + [Message(m)];
    assert sent'[..|sent'| - 1] == sent;
    assert m.opcode != CLOSE ==> dropped == [] by { assert [m][0] == m; }
    assert Settled(sent', Messages(dropped)) + [] == Settled(sent, Messages(dropped)) + [Message(m)];
  }

  lemma EndsQueued(n: nat, line: seq<OMsg>, frags: set<nat>, ended: set<nat>, m: OMsg)
    requires Ends(n, line, frags, ended) && Unstarted(m)
    ensures Ends(n, line + [m], if m.Fragmented? then frags + {n + |line|} else frags, ended)
  {
  }

  lemma EndsSent(n: nat, line: seq<OMsg>, frags: set<nat>, ended: set<nat>)
    requires Ends(n, line, frags, ended) && line != [] && (line[0].Whole? || line[0].fin)
    requires forall i | 1 <= i < |line| :: Unstarted(line[i])
    ensures Ends(n + 1, line[1..], frags, ended)
  {
    var rest := line[1..];
    assert n in frags <==> line[0].Fragmented? by { assert n + 0 == n; }
    forall j | 0 <= j < |rest|
      ensures n + 1 + j in frags <==> rest[j].Fragmented?
    {
      assert n + (j + 1) == n + 1 + j;
    }
  }

  lemma EndsRead(n: nat, m: OMsg, m': OMsg, behind: seq<OMsg>, frags: set<nat>, ended: set<nat>)
    requires Ends(n, [m] + behind, frags, ended) && m.Fragmented? && m'.Fragmented? && (m.fin ==> m'.fin)
    ensures Ends(n, [m'] + behind, frags, if m'.fin then ended + {n} else ended)
  {
    var a, b := [m] + behind, [m'] + behind;
    assert n in frags by { assert a[0] == m && n + 0 == n; }
    forall j | 0 <= j < |b|
      ensures n + j in frags <==> b[j].Fragmented?
    {
      assert j > 0 ==> a[j] == b[j];
      assert n + j in frags <==> a[j].Fragmented?;
    }
  }

  /** What one more legal frame adds to the messages sent. */
  lemma FeedCounts(fs: seq<Frame>, f: Frame)
    requires Assemble(fs + [f]).legal
    ensures ControlSent(fs + [f]) ==
      ControlSent(fs) + if IsControl(f.h.opcode) then [Msg(f.h.opcode, f.payload)] else []
    ensures DataSent(fs + [f]) == DataSent(fs) + if !IsControl(f.h.opcode) && f.h.fin then 1 else 0
  {
    hide Assemble, Control, Data;
    AssembleSnoc(fs, f);
    OpenIsData(fs);
    var a := Assemble(fs);
    assert Control(a.out) + [] == Control(a.out);
    if a.open.Some? {
      ControlSnoc(a.out, Msg(a.open.value.opcode, a.open.value.payload + f.payload));
      DataSnoc(a.out, Msg(a.open.value.opcode, a.open.value.payload + f.payload));
    }
    ControlSnoc(a.out, Msg(f.h.opcode, f.payload));
    DataSnoc(a.out, Msg(f.h.opcode, f.payload));
  }

  lemma CountAccepted(v: SendView)
    requires ContentOk(v)
    ensures |v.hist.accepted| == DataSent(v.frames) + |Line(v)|
  {
    hide Assemble, Data, FrontMessage, Line;
  }

  // -- Steps: queueing ---------------------------------------------------

  lemma {:induction false} SizeConcat(a: seq<OMsg>, b: seq<OMsg>)
    ensures Size(a + b) == Size(a) + Size(b)
    decreases |a|
  {
    if a == [] {
      assert a + b == b;
    } else {
      assert (a + b)[1..] == a[1..] + b;
      SizeConcat(a[1..], b);
    }
  }

  lemma SizeOne(m: OMsg)
    ensures Size([m]) == DataLength(m)
  {
    assert Size([]) == 0;
  }

  lemma MessagesSnoc(ms: seq<OMsg>, m: OMsg)
    ensures Messages(ms + [m]) == Messages(ms) + [Message(m)]
  {
  }

  /** A new message at the end of the line comes last. */
  lemma OutstandingSnoc(open: Option<Msg>, obuf: seq<byte>, line: seq<OMsg>, m: OMsg)
    requires line == [] ==> open.None? && obuf == []
    ensures Outstanding(open, obuf, line + [m]) == Outstanding(open, obuf, line) + [Message(m)]
  {
    if line == [] {
      assert line + [m] == [m];
      assert [] + Body(m) == Body(m);
      assert Messages([m][1..]) == [];
    } else {
      assert (line + [m])[0] == line[0] && (line + [m])[1..] == line[1..] + [m];
      MessagesSnoc(line[1..], m);
    }
  }

  predicate Queueable(v: SendView) { v.writeEnabled && !v.closeQueued }

  function QueueCtrl(v: SendView, m: OMsg, reply: bool): SendView {
    v.(ctrlQ := v.ctrlQ + [m], count := v.count + 1, length := v.length + DataLength(m),
       hist := v.hist.(log := v.hist.log + [Logged(Message(m), reply)]))
  }

  function QueueData(v: SendView, m: OMsg): SendView {
    v.(sendQ := v.sendQ + [m], count := v.count + 1, length := v.length + DataLength(m),
       hist := v.hist.(accepted := v.hist.accepted + [Message(m)],
                       frags := if m.Fragmented? then v.hist.frags + {|v.hist.accepted|} else v.hist.frags))
  }

  /** Payload of a Close: nothing without a status, else the status and the reason. */
  function ClosePayload(status: nat, reason: seq<byte>): seq<byte> {
    if status == 0 then [] else BigEndian(status, 2) + reason
  }

  /** Close counts as queued from now on. */
  function MarkedClose(v: SendView): SendView {
    v.(closeQueued := true, hist := v.hist.(closeAt := Begun(v)))
  }

  /** A Close is queued, and with it the end of all queueing. */
  function CloseWith(v: SendView, payload: seq<byte>, reply: bool): SendView {
    MarkedClose(QueueCtrl(v, Whole(CLOSE, payload), reply))
  }

  /** The library's own answer to a received message, while one may be queued: a PONG to a PING, a Close to a Close. */
  function Replied(v: SendView, opcode: nat, payload: seq<byte>): SendView {
    if !Queueable(v) then v
    else if opcode == PING then QueueCtrl(v, Whole(PONG, payload), true)
    else if opcode == CLOSE then CloseWith(v, if |payload| >= 2 then payload else [], true)
    else v
  }

  lemma QueueCtrlKeeps(v: SendView, m: OMsg, reply: bool)
    requires Inv(v) && CtrlOk(m) && !v.closeQueued
    ensures Inv(QueueCtrl(v, m, reply))
  {
    hide Assemble, Data, Outstanding, LineOk, Size, HeaderMeant, SentOk, CtrlOk, LogOk, Ends, ControlSent, DataSent;
    SizeConcat(v.ctrlQ, [m]);
    SizeOne(m);
    LogQueued(ControlSent(v.frames), v.hist.discarded, ControlInFlight(v.omsg), v.ctrlQ,
              v.writeEnabled, v.hist.log, m, reply);
    var w := QueueCtrl(v, m, reply);
    assert Line(w) == Line(v);
    assert forall i | 0 <= i < |v.ctrlQ| :: w.ctrlQ[i] == v.ctrlQ[i];
  }

  lemma QueueDataKeeps(v: SendView, m: OMsg)
    requires Inv(v) && Unstarted(m)
    ensures Inv(QueueData(v, m))
  {
    hide Assemble, Data, Outstanding, Size, HeaderMeant, SentOk, LogOk, Ends, ControlSent, DataSent;
    SizeConcat(v.sendQ, [m]);
    SizeOne(m);
    CountAccepted(v);
    EndsQueued(DataSent(v.frames), Line(v), v.hist.frags, v.ended, m);
    var w, a := QueueData(v, m), Assemble(v.frames);
    assert Line(w) == Line(v) + [m];
    assert Line(v) == [] ==> v.obuf == [];
    OutstandingSnoc(a.open, v.obuf, Line(v), m);
    hide Coupled, CountersOk, CloseOk, FramesOk, ControlOk, EndsOk;
    assert w.hist.accepted == (Data(a.out) + Outstanding(a.open, v.obuf, Line(v))) + [Message(m)];
  }

  lemma MarkCloseKeeps(v: SendView)
    requires Inv(v) && Queueable(v) && HasClose(v.ctrlQ) && v.hist.log != []
    requires v.hist.log[|v.hist.log| - 1].m.opcode == CLOSE
    ensures Inv(MarkedClose(v))
  {
    hide Assemble, Data, Outstanding, LineOk, Size, HeaderMeant, SentOk, CtrlOk, HasClose, LogOk, Ends;
    hide ControlSent, DataSent;
    LogMarked(ControlSent(v.frames), v.hist.discarded, ControlInFlight(v.omsg), v.ctrlQ, v.writeEnabled, v.hist.log);
  }

  // -- Steps: choosing the next message ----------------------------------

  /** The message becomes the current one; for a whole message its offsets are set up. */
  function Current(v: SendView, m: OMsg): SendView {
    var w := v.(omsg := Some(m));
    if m.Whole? then w.(oplen := |m.data|, opoff := 0) else w
  }

  function PopData(v: SendView): SendView
    requires v.sendQ != []
  {
    Current(v.(sendQ := v.sendQ[1..]), v.sendQ[0])
  }

  function PopCtrl(v: SendView): SendView
    requires v.ctrlQ != []
  {
    Current(v.(ctrlQ := v.ctrlQ[1..]), v.ctrlQ[0])
  }

  /** The control message in front is dropped, because Close is queued. */
  function DropCtrl(v: SendView): SendView
    requires v.ctrlQ != []
  {
    v.(ctrlQ := v.ctrlQ[1..], hist := v.hist.(discarded := v.hist.discarded + [v.ctrlQ[0]]))
  }

  /** The current data message goes back to the front of its queue. */
  function PutBack(v: SendView): SendView
    requires v.omsg.Some?
  {
    v.(omsg := None, sendQ := [v.omsg.value] + v.sendQ)
  }

  lemma PopDataKeeps(v: SendView)
    requires Inv(v) && v.omsg.None? && v.ctrlQ == [] && v.sendQ != []
    ensures Inv(PopData(v))
  {
    hide Assemble, Data, Outstanding, HeaderMeant, SentOk, LogOk, Ends, ControlSent, DataSent, Size;
    var w := PopData(v);
    assert Line(v) == v.sendQ && v.sendQ[0] == Line(v)[0];
    assert [v.sendQ[0]] + v.sendQ[1..] == v.sendQ;
    assert Line(w) == Line(v);
    SizeHead(v.sendQ);
    SizeNone();
  }

  lemma SizeNone()
    ensures Size([]) == 0
  {
  }

  lemma SizeHead(ms: seq<OMsg>)
    requires ms != []
    ensures Size(ms) == Size([ms[0]]) + Size(ms[1..])
  {
    SizeConcat([ms[0]], ms[1..]);
    assert [ms[0]] + ms[1..] == ms;
  }

  lemma HasCloseLast(ms: seq<OMsg>, m: OMsg)
    requires m.opcode == CLOSE
    ensures HasClose(ms + [m])
  {
    assert (ms + [m])[|ms|] == m;
  }

  lemma HasCloseTail(ms: seq<OMsg>)
    requires HasClose(ms) && ms[0].opcode != CLOSE
    ensures HasClose(ms[1..])
  {
    var i :| 0 <= i < |ms| && ms[i].opcode == CLOSE;
    assert ms[1..][i - 1] == ms[i];
  }

  lemma PopCtrlKeeps(v: SendView)
    requires Inv(v) && v.omsg.None? && v.ctrlQ != []
    requires v.closeQueued ==> v.ctrlQ[0].opcode == CLOSE
    ensures Inv(PopCtrl(v))
  {
    hide Assemble, Data, Outstanding, LineOk, HeaderMeant, SentOk, HasClose, Size, LogOk, Ends, ControlSent, DataSent;
    assert CtrlOk(v.ctrlQ[0]);
    LogPopped(ControlSent(v.frames), v.hist.discarded, v.ctrlQ, v.closeQueued, v.writeEnabled, v.hist.log);
    SizeHead(v.ctrlQ);
    SizeNone();
    assert Line(PopCtrl(v)) == Line(v);
    assert ControlOk(PopCtrl(v));
  }

  lemma DropCtrlKeeps(v: SendView)
    requires Inv(v) && v.omsg.None? && v.ctrlQ != [] && v.ctrlQ[0].opcode != CLOSE && v.closeQueued && v.writeEnabled
    ensures Inv(DropCtrl(v))
  {
    hide Assemble, Data, Outstanding, LineOk, HeaderMeant, SentOk, HasClose, Size, LogOk, Ends, ControlSent, DataSent;
    LogDropped(ControlSent(v.frames), v.hist.discarded, v.ctrlQ, v.hist.log);
    var w := DropCtrl(v);
    assert Line(w) == Line(v);
    SizeHead(v.ctrlQ);
    SizeConcat(v.hist.discarded, [v.ctrlQ[0]]);
    SizeNone();
    HasCloseTail(v.ctrlQ);
  }

  /** Preemption keeps the order of the data messages. */
  lemma PutBackKeeps(v: SendView)
    requires Inv(v) && v.omsg.Some? && !IsControl(v.omsg.value.opcode) && v.cur.Idle? && v.obuf == []
    ensures Inv(PutBack(v))
  {
    hide Assemble, Data, Outstanding, LineOk, HeaderMeant, SentOk, HasClose, Size, LogOk, Ends, ControlSent, DataSent;
    var w := PutBack(v);
    assert Line(w) == Line(v);
    SizeConcat([v.omsg.value], v.sendQ);
    SizeNone();
  }

  /** The search for the Close cannot come to the end of the queue. */
  lemma CloseIsWaiting(v: SendView)
    requires Inv(v) && v.closeQueued && v.writeEnabled && v.omsg.None?
    ensures v.ctrlQ != []
  {
    hide QueuesOk, ContentOk, Coupled, FramesOk, CountersOk, ControlOk, EndsOk;
  }

  // -- Steps: sending ----------------------------------------------------

  /** The current message may go on: once Close is queued, no other message begins a frame. */
  predicate Chosen(v: SendView) {
    v.omsg.Some? && (v.cur.Idle? && v.closeQueued ==> v.omsg.value.opcode == CLOSE)
  }

  /** What the event layer hands to the printer. */
  function IoOf(v: SendView): Iocb
    requires v.omsg.Some? && Inv(v)
  {
    var m := v.omsg.value;
    OpcodeIsByte(v);
    if m.Whole? then Iocb(true, 0, m.opcode, !v.server, v.oplen, m.data[v.opoff..])
    else Iocb(m.fin, 0, m.opcode, !v.server, v.oplen, v.obuf[v.mark..])
  }

  lemma OpcodeIsByte(v: SendView)
    requires v.omsg.Some? && QueuesOk(v)
    ensures v.omsg.value.opcode <= 10
  {
    hide Assemble;
    if !IsControl(v.omsg.value.opcode) {
      assert Line(v)[0] == v.omsg.value;
    }
  }

  /** The fields of the control block are in range. */
  lemma IoInRange(v: SendView)
    requires v.omsg.Some? && Inv(v)
    ensures v.omsg.value.opcode <= 10
    ensures v.omsg.value.Whole? ==> v.opoff <= |v.omsg.value.data|
    ensures v.omsg.value.Fragmented? ==> v.mark <= |v.obuf| && v.omsg.value.opcode != CLOSE
  {
    OpcodeIsByte(v);
    if v.omsg.value.Fragmented? {
      FragmentedIsData(v);
    }
    hide QueuesOk, ContentOk, FramesOk, CountersOk, CloseOk, ControlOk, EndsOk;
  }

  lemma MaskAsked(v: SendView)
    requires v.omsg.Some? && Inv(v)
    ensures IoOf(v).mask == !v.server
  {
    hide Inv;
  }

  /** The printer took n more payload bytes of the current frame, which may just have begun. */
  function Advance(v: SendView, n: nat, b: Progress): SendView
    requires v.omsg.Some?
  {
    if v.omsg.value.Whole? then v.(cur := b, opoff := v.opoff + n) else v.(cur := b, mark := v.mark + n)
  }

  /** n more of the bytes behind the first i make the first i + n. */
  lemma TakeMore(s: seq<byte>, i: nat, n: nat)
    requires i + n <= |s|
    ensures s[..i] + s[i..][..n] == s[..i + n]
  {
  }

  lemma AdvanceWholeCoupled(v: SendView, n: nat, b: Progress)
    requires Inv(v) && v.omsg.Some? && v.omsg.value.Whole?
    requires Continues(v.cur, IoOf(v), n, b) && b.mask == b.h.key
    ensures Coupled(Advance(v, n, b))
  {
    hide Assemble, ContentOk, FramesOk, CountersOk, CloseOk, ControlOk, EndsOk;
    IoInRange(v);
    TakeMore(v.omsg.value.data, v.opoff, n);
  }

  lemma AdvanceFragmentCoupled(v: SendView, n: nat, b: Progress)
    requires Inv(v) && v.omsg.Some? && v.omsg.value.Fragmented? && v.obuf != []
    requires Continues(v.cur, IoOf(v), n, b) && b.mask == b.h.key
    ensures Coupled(Advance(v, n, b))
  {
    hide Assemble, ContentOk, FramesOk, CountersOk, CloseOk, ControlOk, EndsOk;
    IoInRange(v);
    TakeMore(v.obuf, v.mark, n);
  }

  lemma AdvanceKeeps(v: SendView, n: nat, b: Progress)
    requires Inv(v) && Chosen(v) && (v.writeEnabled || v.cur.Busy?) && (v.omsg.value.Fragmented? ==> v.obuf != [])
    requires Continues(v.cur, IoOf(v), n, b) && b.mask == b.h.key
    ensures Inv(Advance(v, n, b))
  {
    hide Assemble, Data, Outstanding, LineOk, SentOk, HasClose, Size, Coupled, LogOk, Ends, ControlSent, DataSent;
    if v.omsg.value.Whole? {
      AdvanceWholeCoupled(v, n, b);
    } else {
      AdvanceFragmentCoupled(v, n, b);
    }
    assert Line(Advance(v, n, b)) == Line(v);
    OpcodeIsByte(v);
    if v.cur.Idle? && v.closeQueued {
      assert Begun(v) == v.hist.closeAt;
    }
  }

  /** The printer's own state after a call; done tells that the call went through. */
  function Printed(v: SendView, done: bool, b: Progress): SendView
    requires b.Busy?
  {
    if done && |b.sent| == b.h.len then v.(frames := v.frames + [FrameOf(b)], cur := Idle) else v.(cur := b)
  }

  /** The offset of the event layer follows. */
  function Moved(v: SendView, n: nat): SendView
    requires v.omsg.Some?
  {
    if v.omsg.value.Whole? then v.(opoff := v.opoff + n) else v.(mark := v.mark + n)
  }

  predicate SameMessage(w: SendView, v: SendView) {
    && w.omsg == v.omsg && w.obuf == v.obuf && w.sendQ == v.sendQ && w.ctrlQ == v.ctrlQ
    && w.writeEnabled == v.writeEnabled && w.frames == v.frames
  }

  lemma AdvanceIsMoved(v: SendView, done: bool, n: nat, b: Progress)
    requires v.omsg.Some? && b.Busy? && Inv(Advance(v, n, b))
    ensures var adv := Advance(v, n, b);
      && Moved(Printed(v, done, b), n) == (if done && FrameComplete(adv) then FrameSent(adv) else adv)
      && adv.cur.Busy? && SameMessage(adv, v) && (v.omsg.value.Fragmented? ==> v.mark + n <= |v.obuf|)
      && (n == 0 ==> adv.mark == v.mark)
  {
    hide Inv;
    MarkInBuffer(Advance(v, n, b));
  }

  lemma MarkInBuffer(v: SendView)
    requires Inv(v) && v.omsg.Some? && v.cur.Busy?
    ensures v.omsg.value.Fragmented? ==> v.mark <= |v.obuf|
  {
    hide QueuesOk, ContentOk, FramesOk, CountersOk, CloseOk, ControlOk, EndsOk;
  }

  predicate FrameComplete(v: SendView) { v.cur.Busy? && |v.cur.sent| == v.cur.h.len }

  /** The printer finished its frame. */
  function FrameSent(v: SendView): SendView
    requires v.cur.Busy?
  {
    v.(frames := v.frames + [FrameOf(v.cur)], cur := Idle)
  }

  /** The status a sent Close carried, or that it carried none. */
  function SentStatus(payload: seq<byte>): nat {
    if StatusOf(payload) == 0 then 1005 else StatusOf(payload)
  }

  /** The current message is completely sent; a Close ends all writing. */
  function Retire(v: SendView): SendView
    requires v.omsg.Some? && v.count > 0 && v.length >= DataLength(v.omsg.value)
  {
    v.(omsg := None, obuf := [], mark := 0, count := v.count - 1, length := v.length - DataLength(v.omsg.value),
       writeEnabled := v.writeEnabled && v.omsg.value.opcode != CLOSE)
  }

  /** The fragment is out and the message goes on: from now on as a continuation. */
  function NextFragment(v: SendView): SendView
    requires v.omsg.Some? && v.omsg.value.Fragmented?
  {
    v.(omsg := Some(Fragmented(CONTINUATION, v.omsg.value.fin, v.omsg.value.source)), obuf := [], mark := 0)
  }

  lemma CompleteCurrent(v: SendView)
    requires Inv(v) && FrameComplete(v)
    ensures SentOk(v.server, FrameOf(v.cur)) && v.omsg.Some?
    ensures v.cur.sent == if v.omsg.value.Whole? then v.omsg.value.data else v.obuf
    ensures v.count > 0 && v.length >= DataLength(v.omsg.value)
    ensures v.cur.h.opcode == v.omsg.value.opcode && v.cur.h.fin == (v.omsg.value.Whole? || v.omsg.value.fin)
  {
    hide QueuesOk, ContentOk, FramesOk, CloseOk, ControlOk, EndsOk;
    SizeOne(v.omsg.value);
    hide Size;
    match v.omsg.value
    case Whole(_, data) => assert data[..|data|] == data;
    case Fragmented(_, _, _) => assert v.obuf[..|v.obuf|] == v.obuf;
  }

  /** The reassembler's view of a frame that completes the front message. */
  lemma FeedLast(a: Asm, f: Frame, obuf: seq<byte>, line: seq<OMsg>)
    requires a.legal && LineOk(a.open, line) && line != [] && !IsControl(f.h.opcode)
    requires f.h.opcode == line[0].opcode && f.h.fin
    requires f.payload == if line[0].Whole? then line[0].data else obuf
    requires if line[0].Whole? then obuf == [] else line[0].source == []
    ensures Feed(a, f) == Asm(None, a.out + [FrontMessage(a.open, obuf, line[0])], true)
  {
    assert [] + Body(line[0]) == Body(line[0]);
    assert obuf + [] == obuf;
    if a.open.Some? {
      assert a.open.value.payload + obuf + [] == a.open.value.payload + obuf;
    }
  }

  lemma LineAfterFront(open: Option<Msg>, line: seq<OMsg>)
    requires LineOk(open, line) && line != []
    ensures LineOk(None, line[1..])
  {
  }

  lemma OutstandingUnstarted(line: seq<OMsg>)
    ensures Outstanding(None, [], line) == Messages(line)
  {
    if line != [] {
      assert [] + Body(line[0]) == Body(line[0]);
      assert Messages(line) == [Message(line[0])] + Messages(line[1..]);
    }
  }

  lemma FeedControl(a: Asm, f: Frame)
    requires a.legal && IsCtrlOpcode(f.h.opcode)
    ensures Feed(a, f) == a.(out := a.out + [Msg(f.h.opcode, f.payload)])
  {
  }

  lemma Regroup(s: seq<Msg>, t: seq<Msg>, u: seq<Msg>)
    ensures s + (t + u) == (s + t) + u
  {
  }

  lemma FrontIsNotControl(open: Option<Msg>, obuf: seq<byte>, m: OMsg)
    requires !IsControl(m.opcode) && (open.Some? ==> IsDataOpcode(open.value.opcode))
    ensures !IsControl(FrontMessage(open, obuf, m).opcode)
  {
  }

  /** Completing the front message moves it from the outstanding messages to the sent ones. */
  lemma FrontCompletes(a: Asm, f: Frame, obuf: seq<byte>, line: seq<OMsg>, accepted: seq<Msg>)
    requires a.legal && LineOk(a.open, line) && line != [] && !IsControl(f.h.opcode)
    requires a.open.Some? ==> IsDataOpcode(a.open.value.opcode)
    requires f.h.opcode == line[0].opcode && f.h.fin
    requires f.payload == if line[0].Whole? then line[0].data else obuf
    requires if line[0].Whole? then obuf == [] else line[0].source == []
    requires accepted == Data(a.out) + Outstanding(a.open, obuf, line)
    ensures var b := Feed(a, f);
      b.legal && b.open.None? && accepted == Data(b.out) + Outstanding(b.open, [], line[1..])
  {
    hide *;
    var m := FrontMessage(a.open, obuf, line[0]);
    FeedLast(a, f, obuf, line);
    FrontIsNotControl(a.open, obuf, line[0]);
    DataSnoc(a.out, m);
    OutstandingUnstarted(line[1..]);
    OutstandingFront(a.open, obuf, line);
    Regroup(Data(a.out), [m], Messages(line[1..]));
  }

  lemma RetireLineKeeps(v: SendView)
    requires Inv(v) && FrameComplete(v) && v.omsg.Some? && !IsControl(v.omsg.value.opcode)
    requires v.omsg.value.Whole? || v.omsg.value.fin
    requires v.count > 0 && v.length >= DataLength(v.omsg.value)
    ensures ContentOk(Retire(FrameSent(v))) && LineOk(Assemble(FrameSent(v).frames).open, v.sendQ)
  {
    hide Assemble, Data, Outstanding, HeaderMeant, SentOk, FramesOk, CountersOk, CloseOk, DataLength, Feed;
    hide ControlOk, EndsOk;
    CompleteCurrent(v);
    var a, f, line := Assemble(v.frames), FrameOf(v.cur), Line(v);
    assert line[0] == v.omsg.value && line[1..] == v.sendQ;
    OpenIsData(v.frames);
    FrontCompletes(a, f, v.obuf, line, v.hist.accepted);
    AssembleSnoc(v.frames, f);
    LineAfterFront(a.open, line);
    assert Line(Retire(FrameSent(v))) == v.sendQ;
  }

  lemma OutstandingFront(open: Option<Msg>, obuf: seq<byte>, line: seq<OMsg>)
    requires line != []
    ensures Outstanding(open, obuf, line) == [FrontMessage(open, obuf, line[0])] + Messages(line[1..])
  {
  }

  lemma RetireCtrlKeeps(v: SendView)
    requires Inv(v) && FrameComplete(v) && v.omsg.Some? && IsControl(v.omsg.value.opcode)
    requires v.count > 0 && v.length >= DataLength(v.omsg.value)
    ensures ContentOk(Retire(FrameSent(v))) && LineOk(Assemble(FrameSent(v).frames).open, v.sendQ)
  {
    hide Assemble, Data, Outstanding, LineOk, SentOk, FramesOk, CountersOk, CloseOk, ControlOk, EndsOk;
    CompleteCurrent(v);
    var w, a, f := Retire(FrameSent(v)), Assemble(v.frames), FrameOf(v.cur);
    FeedControl(a, f);
    AssembleSnoc(v.frames, f);
    hide Feed;
    DataSnoc(a.out, Msg(f.h.opcode, f.payload));
    assert Line(w) == Line(v) == v.sendQ;
  }

  lemma RetireCountersKeep(v: SendView)
    requires Inv(v) && FrameComplete(v) && v.omsg.Some?
    requires v.count > 0 && v.length >= DataLength(v.omsg.value)
    ensures CountersOk(Retire(FrameSent(v)))
  {
    hide QueuesOk, ContentOk, Coupled, FramesOk, CloseOk, ControlOk, EndsOk;
    SizeOne(v.omsg.value);
    SizeNone();
    hide Size;
  }

  lemma CloseIsNextOnSent(v: SendView)
    requires v.cur.Busy? && CloseIsNext(v)
    ensures CloseIsNext(FrameSent(v))
  {
    var w := FrameSent(v);
    assert w.frames[|v.frames|].h == v.cur.h;
  }

  lemma CloseIsLastOnSent(v: SendView)
    requires v.cur.Busy? && v.writeEnabled && CloseIsLast(v)
    ensures CloseIsLast(FrameSent(v).(writeEnabled := v.cur.h.opcode != CLOSE))
  {
    var w := FrameSent(v).(writeEnabled := v.cur.h.opcode != CLOSE);
    assert forall i | 0 <= i < |v.frames| :: w.frames[i] == v.frames[i] && v.frames[i].h.opcode != CLOSE;
  }

  lemma RetireCloseKeeps(v: SendView)
    requires CloseOk(v) && v.cur.Busy? && v.omsg.Some? && v.writeEnabled && v.cur.h.opcode == v.omsg.value.opcode
    requires v.count > 0 && v.length >= DataLength(v.omsg.value)
    ensures CloseOk(Retire(FrameSent(v)))
  {
    hide HasClose, DataLength, CloseIsLast;
    CloseIsLastOnSent(v);
    if v.closeQueued {
      CloseIsNextOnSent(v);
    }
    SameFrames(FrameSent(v).(writeEnabled := v.cur.h.opcode != CLOSE), Retire(FrameSent(v)));
  }

  lemma SameFrames(v: SendView, w: SendView)
    requires CloseIsLast(v) && w.frames == v.frames && w.cur == v.cur && w.writeEnabled == v.writeEnabled
    ensures CloseIsLast(w)
  {
  }

  lemma NextFragmentCloseKeeps(v: SendView)
    requires CloseOk(v) && v.cur.Busy? && v.omsg.Some? && v.omsg.value.Fragmented? && v.writeEnabled
    requires v.cur.h.opcode == v.omsg.value.opcode && v.omsg.value.opcode != CLOSE
    ensures CloseOk(NextFragment(FrameSent(v)))
  {
    hide HasClose, CloseIsLast;
    CloseIsLastOnSent(v);
    if v.closeQueued {
      CloseIsNextOnSent(v);
    }
    SameFrames(FrameSent(v).(writeEnabled := v.cur.h.opcode != CLOSE), NextFragment(FrameSent(v)));
  }

  lemma FrameSentFramesOk(v: SendView)
    requires Inv(v) && FrameComplete(v)
    ensures FramesOk(FrameSent(v))
  {
    CompleteCurrent(v);
    hide QueuesOk, ContentOk, Coupled, CountersOk, CloseOk, SentOk, ControlOk, EndsOk;
  }

  /** A message whose last frame is out leaves the engine. */
  lemma RetireKeeps(v: SendView)
    requires Inv(v) && FrameComplete(v) && v.writeEnabled && v.omsg.Some?
    requires v.omsg.value.Whole? || v.omsg.value.fin
    ensures v.count > 0 && v.length >= DataLength(v.omsg.value)
    ensures Inv(Retire(FrameSent(v))) && AtRest(Retire(FrameSent(v)))
  {
    hide Assemble, Data, Outstanding, LineOk, SentOk, CountersOk, CloseOk, ContentOk, CtrlOk, HeaderMeant;
    hide ControlOk, EndsOk;
    CompleteCurrent(v);
    if IsControl(v.omsg.value.opcode) {
      RetireCtrlKeeps(v);
    } else {
      RetireLineKeeps(v);
    }
    RetireCountersKeep(v);
    RetireCloseKeeps(v);
    FrameSentFramesOk(v);
    RetireQueuesKeep(v);
    RetireLogKeeps(v);
    hide QueuesOk, Line, FrameSent;
  }

  lemma RetireLogKeeps(v: SendView)
    requires Inv(v) && FrameComplete(v) && v.writeEnabled && v.omsg.Some? && (v.omsg.value.Whole? || v.omsg.value.fin)
    requires v.count > 0 && v.length >= DataLength(v.omsg.value) && ContentOk(Retire(FrameSent(v)))
    ensures ControlOk(Retire(FrameSent(v))) && EndsOk(Retire(FrameSent(v)))
  {
    hide Assemble, Data, Outstanding, Coupled, FramesOk, CountersOk, CloseOk, CtrlOk, LogOk, Ends, ControlSent;
    hide DataSent;
    CompleteCurrent(v);
    var m, line := v.omsg.value, Line(v);
    FeedCounts(v.frames, FrameOf(v.cur));
    if IsControl(m.opcode) {
      ControlIsShort(v);
      LogSent(ControlSent(v.frames), v.hist.discarded, m, v.ctrlQ, v.closeQueued, v.hist.log);
    } else {
      assert line[0] == m && line[1..] == v.sendQ;
      EndsSent(DataSent(v.frames), line, v.hist.frags, v.ended);
      assert ControlSent(v.frames) + [] == ControlSent(v.frames);
    }
  }

  predicate LastIsClose(fs: seq<Frame>) { fs != [] && fs[|fs| - 1].h.opcode == CLOSE }

  /** Retiring a message ends writing only when a Close frame is out. */
  lemma RetireCloses(v: SendView)
    requires Inv(v) && FrameComplete(v) && v.writeEnabled && v.omsg.Some?
    requires v.count > 0 && v.length >= DataLength(v.omsg.value)
    ensures var w := Retire(FrameSent(v));
      && (w.writeEnabled <==> !LastIsClose(w.frames))
      && (!w.writeEnabled ==>
            v.omsg.value == Whole(CLOSE, Body(v.omsg.value)) && w.frames[|w.frames| - 1].payload == Body(v.omsg.value))
  {
    CompleteCurrent(v);
    if v.omsg.value.Fragmented? {
      FragmentedIsData(v);
    }
    hide Inv, DataLength;
  }

  /** What the printer is offered fits the length announced, which is that of a whole message or of the fragment. */
  lemma ArgumentFits(v: SendView)
    requires v.omsg.Some? && Inv(v) && (v.omsg.value.Fragmented? ==> v.obuf != [])
    ensures var io := IoOf(v);
      && |io.data| <= io.payloadLength
      && io.payloadLength == (if v.omsg.value.Whole? then |v.omsg.value.data| else |v.obuf|)
      && (Oversized(io) ==> io.payloadLength >= MAX_PAYLOAD)
      && (v.cur.Busy? ==> io.payloadLength == v.cur.h.len)
  {
    IoInRange(v);
    if IsControl(v.omsg.value.opcode) {
      ControlIsShort(v);
    }
    hide QueuesOk, ContentOk, FramesOk, CountersOk, CloseOk, ControlOk, EndsOk;
  }

  lemma ControlIsShort(v: SendView)
    requires v.omsg.Some? && QueuesOk(v) && IsControl(v.omsg.value.opcode)
    ensures v.omsg.value.Whole? && |v.omsg.value.data| <= 125
  {
    hide LineOk;
  }

  lemma RetireQueuesKeep(v: SendView)
    requires QueuesOk(v) && v.cur.Busy? && v.omsg.Some? && LineOk(Assemble(FrameSent(v).frames).open, v.sendQ)
    requires v.count > 0 && v.length >= DataLength(v.omsg.value)
    ensures QueuesOk(Retire(FrameSent(v)))
  {
    hide Assemble, LineOk, CtrlOk, DataLength;
    assert Line(Retire(FrameSent(v))) == v.sendQ;
  }

  /** The reassembler's view of a frame that leaves the message open. */
  lemma FeedMore(a: Asm, f: Frame, obuf: seq<byte>, m: OMsg)
    requires a.legal && Front(a.open, m) && m.Fragmented? && !IsControl(f.h.opcode)
    requires f.h.opcode == m.opcode && !f.h.fin && f.payload == obuf
    ensures var b, m' := Feed(a, f), Fragmented(CONTINUATION, m.fin, m.source);
      && b.legal && b.out == a.out && b.open.Some?
      && FrontMessage(b.open, [], m') == FrontMessage(a.open, obuf, m)
  {
    if a.open.Some? {
      assert a.open.value.payload + obuf + [] + m.source == a.open.value.payload + obuf + m.source;
    } else {
      assert obuf + [] + m.source == obuf + m.source;
    }
  }

  lemma NextFragmentLineKeeps(v: SendView)
    requires Inv(v) && FrameComplete(v) && v.omsg.Some? && v.omsg.value.Fragmented? && !v.omsg.value.fin
    ensures ContentOk(NextFragment(FrameSent(v)))
    ensures LineOk(Assemble(FrameSent(v).frames).open, Line(NextFragment(FrameSent(v))))
  {
    hide Assemble, Data, HeaderMeant, SentOk, FramesOk, CountersOk, CloseOk, ControlOk, EndsOk;
    CompleteCurrent(v);
    var w, a, f, line := NextFragment(FrameSent(v)), Assemble(v.frames), FrameOf(v.cur), Line(v);
    assert line[0] == v.omsg.value && line[1..] == v.sendQ;
    assert Line(w)[0] == w.omsg.value && Line(w)[1..] == v.sendQ;
    FeedMore(a, f, v.obuf, line[0]);
    AssembleSnoc(v.frames, f);
    hide Feed;
    OutstandingFront(a.open, v.obuf, line);
    OutstandingFront(Feed(a, f).open, [], Line(w));
    hide Outstanding, FrontMessage;
    assert forall i | 1 <= i < |line| :: Line(w)[i] == line[i];
  }

  /** A fragment is out; the message stays current and will be continued. */
  lemma NextFragmentKeeps(v: SendView)
    requires Inv(v) && FrameComplete(v) && v.writeEnabled
    requires v.omsg.Some? && v.omsg.value.Fragmented? && !v.omsg.value.fin
    ensures Inv(NextFragment(FrameSent(v))) && AtRest(NextFragment(FrameSent(v)))
  {
    hide Assemble, Data, Outstanding, LineOk, SentOk, ContentOk, CtrlOk, CloseOk, CountersOk, HeaderMeant;
    hide ControlOk, EndsOk;
    CompleteCurrent(v);
    FragmentedIsData(v);
    NextFragmentLineKeeps(v);
    FrameSentFramesOk(v);
    NextFragmentCloseKeeps(v);
    NextFragmentCounters(v);
    NextFragmentLogKeeps(v);
  }

  lemma NextFragmentIsOpen(v: SendView)
    requires Inv(v) && FrameComplete(v) && v.omsg.Some? && v.omsg.value.Fragmented?
    ensures !LastIsClose(FrameSent(v).frames)
  {
    CompleteCurrent(v);
    FragmentedIsData(v);
    hide Inv;
  }

  lemma NextFragmentLogKeeps(v: SendView)
    requires Inv(v) && FrameComplete(v) && v.writeEnabled
    requires v.omsg.Some? && v.omsg.value.Fragmented? && !v.omsg.value.fin && ContentOk(NextFragment(FrameSent(v)))
    ensures ControlOk(NextFragment(FrameSent(v))) && EndsOk(NextFragment(FrameSent(v)))
  {
    hide Assemble, Data, Outstanding, Coupled, FramesOk, CountersOk, CloseOk, CtrlOk, LogOk, Ends, ControlSent;
    hide DataSent;
    CompleteCurrent(v);
    FragmentedIsData(v);
    var w := NextFragment(FrameSent(v));
    FeedCounts(v.frames, FrameOf(v.cur));
    EndsRead(DataSent(v.frames), v.omsg.value, w.omsg.value, v.sendQ, v.hist.frags, v.ended);
    assert ControlSent(v.frames) + [] == ControlSent(v.frames);
  }

  lemma FragmentedIsData(v: SendView)
    requires QueuesOk(v) && v.omsg.Some? && v.omsg.value.Fragmented?
    ensures !IsControl(v.omsg.value.opcode) && v.omsg.value.opcode != CLOSE
  {
    hide Assemble, LineOk;
  }

  lemma NextFragmentCounters(v: SendView)
    requires CountersOk(v) && v.cur.Busy? && v.omsg.Some? && v.omsg.value.Fragmented?
    ensures CountersOk(NextFragment(FrameSent(v)))
  {
    SizeOne(v.omsg.value);
    SizeOne(NextFragment(FrameSent(v)).omsg.value);
    hide Size;
  }

  // -- Steps: reading a fragment -----------------------------------------

  /** The read callback put n bytes of the source into the buffer; eof tells that these were the last. */
  /** A read returned bytes for the message in front; eof tells that it reported the end. */
  function Reported(v: SendView, eof: bool): SendView {
    v.(ended := if eof then v.ended + {DataSent(v.frames)} else v.ended)
  }

  function ReadFragment(v: SendView, n: nat, eof: bool): SendView
    requires v.omsg.Some? && v.omsg.value.Fragmented? && n <= |v.omsg.value.source|
  {
    var m := v.omsg.value;
    Reported(v, eof).(omsg := Some(Fragmented(m.opcode, eof, m.source[n..])), obuf := m.source[..n], mark := 0,
                      oplen := n, opoff := 0)
  }

  /** Bytes that move from the source to the buffer leave the message in front what it was. */
  lemma FrontMessageFetched(open: Option<Msg>, opcode: nat, fin: bool, source: seq<byte>, n: nat, eof: bool)
    requires n <= |source|
    ensures FrontMessage(open, source[..n], Fragmented(opcode, eof, source[n..]))
         == FrontMessage(open, [], Fragmented(opcode, fin, source))
  {
    assert source[..n] + source[n..] == source && [] + source == source;
    if open.Some? {
      var p := open.value.payload;
      assert p + [] + source == p + source;
      assert p + source[..n] + source[n..] == p + source;
    }
  }

  lemma ReadFragmentContent(v: SendView, n: nat, eof: bool)
    requires ContentOk(v) && v.omsg.Some? && v.omsg.value.Fragmented? && v.obuf == []
    requires Line(v) == [v.omsg.value] + v.sendQ
    requires n <= |v.omsg.value.source|
    ensures ContentOk(ReadFragment(v, n, eof))
    ensures Line(ReadFragment(v, n, eof)) == [ReadFragment(v, n, eof).omsg.value] + v.sendQ
  {
    hide Assemble, Data, FrontMessage, Outstanding;
    var w, a, line, m := ReadFragment(v, n, eof), Assemble(v.frames), Line(v), v.omsg.value;
    FrontMessageFetched(a.open, m.opcode, m.fin, m.source, n, eof);
    OutstandingFront(a.open, v.obuf, line);
    OutstandingFront(a.open, w.obuf, Line(w));
    assert line[1..] == Line(w)[1..];
  }

  lemma ReadFragmentKeeps(v: SendView, n: nat, eof: bool)
    requires Inv(v) && v.omsg.Some? && v.omsg.value.Fragmented? && v.cur.Idle? && v.obuf == []
    requires 0 < n <= |v.omsg.value.source| && (eof ==> n == |v.omsg.value.source|) && !v.omsg.value.fin
    ensures Inv(ReadFragment(v, n, eof))
  {
    hide Assemble, Data, HeaderMeant, SentOk, CloseOk, ContentOk, CountersOk, LogOk, Ends, ControlSent, DataSent;
    FragmentedIsData(v);
    ReadFragmentContent(v, n, eof);
    ReadFragmentCloseCounters(v, n, eof);
    EndsRead(DataSent(v.frames), v.omsg.value, ReadFragment(v, n, eof).omsg.value, v.sendQ, v.hist.frags, v.ended);
    var w, line := ReadFragment(v, n, eof), Line(v);
    assert forall i | 1 <= i < |line| :: Line(w)[i] == line[i];
  }

  lemma ReadFragmentCloseCounters(v: SendView, n: nat, eof: bool)
    requires CountersOk(v) && CloseOk(v) && v.omsg.Some? && v.omsg.value.Fragmented? && n <= |v.omsg.value.source|
    ensures CountersOk(ReadFragment(v, n, eof)) && CloseOk(ReadFragment(v, n, eof))
  {
    hide HasClose;
    SizeOne(v.omsg.value);
    SizeOne(ReadFragment(v, n, eof).omsg.value);
    hide Size;
  }

  // -- One round of the engine -------------------------------------------

  /** Drops control messages up to the first Close. */
  function DropToClose(v: SendView): SendView
    decreases |v.ctrlQ|
  {
    if v.ctrlQ == [] || v.ctrlQ[0].opcode == CLOSE then v else DropToClose(DropCtrl(v))
  }

  /** The control message to send next. */
  function TakeCtrl(v: SendView): SendView {
    var w := if v.closeQueued then DropToClose(v) else v;
    if w.ctrlQ == [] then w else PopCtrl(w)
  }

  /** The message to go on with: control messages first, but only between frames. */
  function Choose(v: SendView): SendView {
    if v.omsg.None? then
      if v.ctrlQ != [] then TakeCtrl(v) else if v.sendQ != [] then PopData(v) else v
    else if !IsControl(v.omsg.value.opcode) && v.cur.Idle? && v.ctrlQ != [] then TakeCtrl(PutBack(v))
    else v
  }

  lemma {:induction false} DropToCloseKeeps(v: SendView)
    requires Inv(v) && v.omsg.None? && v.closeQueued && v.writeEnabled
    ensures var w := DropToClose(v);
      && Inv(w) && w.omsg.None? && w.closeQueued && w.writeEnabled && w.ctrlQ != [] && w.ctrlQ[0].opcode == CLOSE
      && w.sendQ == v.sendQ && w.cur == v.cur && w.obuf == v.obuf && |w.ctrlQ| <= |v.ctrlQ|
    decreases |v.ctrlQ|
  {
    hide Inv;
    CloseIsWaiting(v);
    if v.ctrlQ[0].opcode != CLOSE {
      DropCtrlKeeps(v);
      DropToCloseKeeps(DropCtrl(v));
    }
  }

  lemma TakeCtrlKeeps(v: SendView)
    requires Inv(v) && v.omsg.None? && v.writeEnabled && v.ctrlQ != []
    ensures var w := TakeCtrl(v);
      && Inv(w) && Chosen(w) && w.omsg.value.Whole? && w.writeEnabled && w.sendQ == v.sendQ && |w.ctrlQ| < |v.ctrlQ|
      && w.obuf == v.obuf
  {
    if v.closeQueued {
      DropToCloseKeeps(v);
    }
    var u := if v.closeQueued then DropToClose(v) else v;
    assert CtrlOk(u.ctrlQ[0]) by { hide Assemble, LineOk; }
    hide Inv, DropToClose;
    PopCtrlKeeps(u);
  }

  /** Work still to be done: messages, source bytes, and the fragment in the buffer. */
  function Work(v: SendView): nat {
    |v.sendQ| + |v.ctrlQ| + |InFlight(v.omsg)| + Sources(v.sendQ) + Sources(InFlight(v.omsg)) + |v.obuf|
  }

  function SourceLength(m: OMsg): nat {
    match m case Whole(_, _) => 0 case Fragmented(_, _, source) => |source|
  }

  function Sources(ms: seq<OMsg>): nat {
    if ms == [] then 0 else SourceLength(ms[0]) + Sources(ms[1..])
  }

  lemma SourcesOne(m: OMsg)
    ensures Sources([m]) == SourceLength(m) && Sources([]) == 0
  {
  }

  lemma SourcesCons(m: OMsg, ms: seq<OMsg>)
    ensures Sources([m] + ms) == SourceLength(m) + Sources(ms)
  {
    assert ([m] + ms)[1..] == ms;
  }

  /** Whatever is chosen, the invariant holds, a Close has precedence, and no work is added. */
  lemma ChooseKeeps(v: SendView)
    requires Inv(v) && AtRest(v) && v.writeEnabled && (v.sendQ != [] || v.ctrlQ != [] || v.omsg.Some?)
    ensures var w := Choose(v);
      Inv(w) && Chosen(w) && w.writeEnabled && Work(w) <= Work(v) && (w.omsg.value.Fragmented? ==> AtRest(w))
  {
    hide Inv, Sources;
    SourcesOne(Whole(0, []));
    if v.omsg.None? && v.ctrlQ == [] {
      NoClosePending(v);
      PopDataKeeps(v);
      SourcesOne(v.sendQ[0]);
      SourcesCons(v.sendQ[0], v.sendQ[1..]);
      assert [v.sendQ[0]] + v.sendQ[1..] == v.sendQ;
    } else if v.omsg.None? {
      NoneInFlight(v);
      TakeCtrlKeeps(v);
      SourcesOne(TakeCtrl(v).omsg.value);
      hide TakeCtrl;
    } else if !IsControl(v.omsg.value.opcode) && v.cur.Idle? && v.ctrlQ != [] {
      var m := v.omsg.value;
      SourcesOne(m);
      SourcesCons(m, v.sendQ);
      PutBackKeeps(v);
      TakeCtrlKeeps(PutBack(v));
      SourcesOne(TakeCtrl(PutBack(v)).omsg.value);
      hide TakeCtrl;
    } else {
      ChosenAtRest(v);
    }
  }

  /**
   Between frames a control message goes first, with Close queued the first Close; a frame under way is never
   left. The order of the data messages stays what it was.
   */
  lemma ControlGoesFirst(v: SendView)
    requires Inv(v) && AtRest(v) && v.writeEnabled && (v.sendQ != [] || v.ctrlQ != [] || v.omsg.Some?)
    ensures var w := Choose(v);
      && Line(w) == Line(v) && w.cur == v.cur && w.frames == v.frames && w.obuf == v.obuf
      && w.hist == v.hist.(discarded := w.hist.discarded)
      && (v.omsg.Some? && (v.cur.Busy? || IsControl(v.omsg.value.opcode)) ==> w == v)
      && ((v.omsg.None? || (v.cur.Idle? && !IsControl(v.omsg.value.opcode))) && v.ctrlQ != [] ==>
            if v.closeQueued then w.omsg.Some? && w.omsg.value.opcode == CLOSE else w.omsg == Some(v.ctrlQ[0]))
  {
    hide Inv, TakeCtrl;
    if v.omsg.None? && v.ctrlQ == [] {
      DataInFront(v);
      assert [v.sendQ[0]] + v.sendQ[1..] == v.sendQ;
    } else if v.omsg.None? {
      TakeCtrlTakes(v);
    } else if !IsControl(v.omsg.value.opcode) && v.cur.Idle? && v.ctrlQ != [] {
      PutBackKeeps(v);
      TakeCtrlTakes(PutBack(v));
    }
  }

  lemma TakeCtrlTakes(v: SendView)
    requires Inv(v) && v.omsg.None? && v.writeEnabled && v.ctrlQ != []
    ensures var w := TakeCtrl(v);
      && Line(w) == v.sendQ && w.cur == v.cur && w.frames == v.frames && w.obuf == v.obuf
      && w.hist == v.hist.(discarded := w.hist.discarded)
      && (if v.closeQueued then w.omsg.Some? && w.omsg.value.opcode == CLOSE else w.omsg == Some(v.ctrlQ[0]))
  {
    hide Inv, DropToClose;
    if v.closeQueued {
      DropToCloseKeeps(v);
      DropToCloseAccepts(v);
      ControlInFront(DropToClose(v));
    } else {
      ControlInFront(v);
    }
  }

  lemma ControlInFront(v: SendView)
    requires Inv(v) && v.ctrlQ != []
    ensures IsControl(v.ctrlQ[0].opcode)
  {
    hide Assemble, LineOk, ContentOk, Coupled, FramesOk, CountersOk, CloseOk, ControlOk, EndsOk;
    assert CtrlOk(v.ctrlQ[0]);
  }

  lemma DataInFront(v: SendView)
    requires Inv(v) && v.omsg.None? && v.sendQ != []
    ensures !IsControl(v.sendQ[0].opcode)
  {
    hide Assemble, ContentOk, Coupled, FramesOk, CountersOk, CloseOk, ControlOk, EndsOk;
    assert Line(v) == v.sendQ;
  }

  lemma {:induction false} DropToCloseAccepts(v: SendView)
    ensures var w := DropToClose(v);
      w.hist == v.hist.(discarded := w.hist.discarded) && w.omsg == v.omsg && w.frames == v.frames
    decreases |v.ctrlQ|
  {
    if v.ctrlQ != [] && v.ctrlQ[0].opcode != CLOSE {
      DropToCloseAccepts(DropCtrl(v));
    }
  }

  // -- The end of a fragmented message -----------------------------------

  /** The message in front has nothing more to send, and its end was not reported. */
  predicate Stuck(v: SendView) {
    var line := Line(v);
    line != [] && line[0].Fragmented? && !line[0].fin && line[0].source == [] && v.obuf == []
  }

  /** Nothing got past a stuck message. */
  predicate StillStuck(v: SendView, w: SendView) {
    Stuck(v) ==> Stuck(w) && DataSent(w.frames) == DataSent(v.frames)
  }

  lemma StillStuckTrans(u: SendView, v: SendView, w: SendView)
    requires StillStuck(u, v) && StillStuck(v, w)
    ensures StillStuck(u, w)
  {
  }

  lemma ReadIsNotStuck(v: SendView)
    requires Inv(v) && v.omsg.Some? && v.omsg.value.Fragmented? && v.omsg.value.source != []
    ensures !Stuck(v)
  {
    FragmentedIsData(v);
  }

  /** Queueing, progress within a frame and the end of writing leave a stuck message where it is. */
  lemma StuckStays(v: SendView, w: SendView)
    requires w.omsg == v.omsg && w.obuf == v.obuf && v.sendQ <= w.sendQ && w.frames == v.frames
    ensures StillStuck(v, w)
  {
    hide DataSent;
  }

  lemma StuckChosen(v: SendView)
    requires Inv(v) && AtRest(v) && v.writeEnabled && (v.sendQ != [] || v.ctrlQ != [] || v.omsg.Some?)
    ensures StillStuck(v, Choose(v)) && Choose(v).hist == v.hist.(discarded := Choose(v).hist.discarded)
  {
    hide Inv, AtRest, Choose, DataSent;
    ControlGoesFirst(v);
  }

  /** Only control messages are sent past a stuck one. */
  lemma StuckRetired(v: SendView)
    requires Inv(v) && FrameComplete(v) && v.omsg.Some? && v.omsg.value.Whole?
    requires v.count > 0 && v.length >= DataLength(v.omsg.value)
    ensures StillStuck(v, Retire(FrameSent(v)))
  {
    hide Assemble, Data, DataSent, ControlSent, FramesOk, CountersOk, CloseOk, ControlOk, EndsOk, ContentOk, LineOk;
    if Stuck(v) {
      CompleteCurrent(v);
      RetireCtrlKeeps(v);
      RetiredIsLegal(v);
      FeedCounts(v.frames, FrameOf(v.cur));
    }
  }

  lemma RetiredIsLegal(v: SendView)
    requires v.cur.Busy? && v.omsg.Some? && v.count > 0 && v.length >= DataLength(v.omsg.value)
    requires ContentOk(Retire(FrameSent(v)))
    ensures Assemble(v.frames + [FrameOf(v.cur)]).legal
  {
    hide Assemble;
  }

  /** A fragmented message with nothing to send is stuck from the start, once it is in front. */
  lemma EmptySourceSticks(v: SendView, opcode: nat)
    requires Inv(v) && Line(v) == [] && IsDataOpcode(opcode)
    ensures Stuck(QueueData(v, Fragmented(opcode, false, [])))
  {
    hide LineOk, ContentOk, FramesOk, CountersOk, CloseOk, ControlOk, EndsOk;
  }

  /** So is one whose last bytes were read without a report of the end, once they are out. */
  lemma LateEndSticks(v: SendView, w: SendView)
    requires v.omsg.Some? && v.omsg.value.Fragmented? && v.omsg.value.source != []
    requires QueuesOk(w) && FrameComplete(w) && w.omsg == ReadFragment(v, |v.omsg.value.source|, false).omsg
    ensures Stuck(NextFragment(FrameSent(w)))
  {
    FragmentedIsData(w);
    hide QueuesOk;
  }

  /** All fragmented messages whose end was reported have been sent completely. */
  predicate AllEndedSent(v: SendView) {
    forall i | i in v.ended :: i < DataSent(v.frames)
  }

  /**
   A fragmented message is sent completely only if a read that returned bytes reported its end; if one did, it has
   been sent completely, or it is in front and its next frame is its last.
   */
  lemma EndsDecide(v: SendView, i: nat)
    requires Inv(v) && i in v.hist.frags
    ensures i < DataSent(v.frames) ==> i in v.ended
    ensures i in v.ended && i >= DataSent(v.frames) ==>
      i == DataSent(v.frames) && Line(v) != [] && Line(v)[0].Fragmented? && Line(v)[0].fin
  {
    hide QueuesOk, ContentOk, Coupled, FramesOk, CountersOk, CloseOk, ControlOk, DataSent, Line;
  }

  lemma NoneLeftToEnd(v: SendView)
    requires Inv(v)
    requires Line(v) == [] || (v.omsg.Some? && v.omsg.value.Fragmented? && !v.omsg.value.fin)
    ensures AllEndedSent(v)
  {
    if v.omsg.Some? && v.omsg.value.Fragmented? {
      FragmentedIsData(v);
    }
    hide ContentOk, Coupled, FramesOk, CountersOk, CloseOk, ControlOk, DataSent, LineOk;
  }

  lemma NoneInFlight(v: SendView)
    requires Inv(v) && v.omsg.None?
    ensures v.obuf == []
  {
  }

  lemma NoClosePending(v: SendView)
    requires Inv(v) && v.omsg.None? && v.ctrlQ == [] && v.writeEnabled
    ensures !v.closeQueued && v.obuf == [] && v.cur.Idle?
  {
    hide QueuesOk, ContentOk, FramesOk, CountersOk, ControlOk, EndsOk;
  }

  lemma ChosenAtRest(v: SendView)
    requires Inv(v) && AtRest(v) && v.writeEnabled && v.omsg.Some?
    requires IsControl(v.omsg.value.opcode) || v.cur.Busy? || v.ctrlQ == []
    ensures Chosen(v)
  {
    hide ContentOk, FramesOk, CountersOk, LineOk, Assemble, Coupled, ControlOk, EndsOk;
  }

  /** A frame not complete after a call was offered more than was taken. */
  lemma IncompleteIsShort(v: SendView, n: nat, b: Progress)
    requires Inv(v) && v.omsg.Some? && n <= |IoOf(v).data| && Inv(Advance(v, n, b)) && b.Busy?
    requires !FrameComplete(Advance(v, n, b))
    ensures n < |IoOf(v).data|
  {
    hide Inv, FrameComplete;
    IoInRange(v);
    CompleteByOffset(Advance(v, n, b));
    if v.omsg.value.Whole? {
      WholeLength(Advance(v, n, b));
    }
  }

  lemma WholeLength(v: SendView)
    requires Inv(v) && v.cur.Busy? && v.omsg.Some? && v.omsg.value.Whole?
    ensures v.oplen == |v.omsg.value.data|
  {
    hide QueuesOk, ContentOk, FramesOk, CountersOk, CloseOk, ControlOk, EndsOk;
  }

  /** A message has its last frame complete exactly when the event layer's offset reaches its length. */
  lemma CompleteByOffset(v: SendView)
    requires Inv(v) && v.cur.Busy?
    ensures v.omsg.Some?
    ensures v.omsg.value.Whole? ==> (FrameComplete(v) <==> v.opoff == v.oplen)
    ensures v.omsg.value.Fragmented? ==> (FrameComplete(v) <==> v.mark == |v.obuf|) && v.obuf != []
  {
    hide QueuesOk, ContentOk, FramesOk, CountersOk, CloseOk, ControlOk, EndsOk;
  }

  /** With the buffer drained no frame is under way, and nothing is in the buffer. */
  lemma IdleWhenDrained(v: SendView)
    requires Inv(v) && v.omsg.Some? && v.omsg.value.Fragmented? && v.mark == |v.obuf|
    requires v.cur.Busy? ==> v.mark < |v.obuf|
    ensures v.cur.Idle?
  {
    hide QueuesOk, ContentOk, FramesOk, CountersOk, CloseOk, ControlOk, EndsOk;
  }

  lemma FragmentLeft(v: SendView)
    requires Inv(v) && AtRest(v) && v.writeEnabled && v.omsg.Some? && v.omsg.value.Fragmented?
    requires v.omsg.value.fin || v.mark != |v.obuf|
    ensures v.mark < |v.obuf|
  {
    hide QueuesOk, ContentOk, FramesOk, CountersOk, CloseOk, ControlOk, EndsOk;
  }

  lemma RestingBusy(v: SendView)
    requires v.cur.Busy? && (v.omsg.Some? && v.omsg.value.Fragmented? ==> v.mark < |v.obuf|)
    ensures AtRest(v)
  {
  }

  /** A call of the printer for a whole message: the frame is complete by the offset, and nothing got past anything. */
  lemma WholeWent(v: SendView, adv: SendView)
    requires Inv(adv) && adv.cur.Busy? && SameMessage(adv, v) && v.omsg.Some? && v.omsg.value.Whole?
    ensures FrameComplete(adv) <==> adv.opoff == adv.oplen
    ensures AtRest(adv) && StillStuck(v, adv) && Work(adv) == Work(v)
  {
    hide Inv, StillStuck, Work, AtRest;
    CompleteByOffset(adv);
    RestingBusy(adv);
    StuckStays(v, adv);
    SameWork(adv, v);
  }

  /** Retiring a message, or finishing a fragment, is progress. */
  lemma RetireIsProgress(v: SendView)
    requires Inv(v) && v.omsg.Some? && v.count > 0 && v.length >= DataLength(v.omsg.value) && v.cur.Busy?
    ensures Work(Retire(FrameSent(v))) < Work(v)
  {
    hide Inv;
    SourcesOne(v.omsg.value);
  }

  lemma NextFragmentIsProgress(v: SendView)
    requires v.omsg.Some? && v.omsg.value.Fragmented? && v.cur.Busy? && v.obuf != []
    ensures Work(NextFragment(FrameSent(v))) < Work(v)
  {
    SourcesOne(v.omsg.value);
    SourcesOne(NextFragment(FrameSent(v)).omsg.value);
    hide Sources;
  }

  lemma ReadFragmentKeepsWork(v: SendView, n: nat, eof: bool)
    requires v.omsg.Some? && v.omsg.value.Fragmented? && n <= |v.omsg.value.source| && v.obuf == []
    ensures Work(ReadFragment(v, n, eof)) == Work(v)
  {
    SourcesOne(v.omsg.value);
    SourcesOne(ReadFragment(v, n, eof).omsg.value);
    hide Sources;
  }

  // -- Towards an end ----------------------------------------------------

  /** From n bytes out to m: more of the frame that was under way, or a frame has been begun. */
  predicate SentMore(v: SendView, n: nat, w: SendView, m: nat) {
    w.cur.Busy? && w.frames == v.frames && (v.cur.Busy? ==> w.cur.h == v.cur.h) && m > n
  }

  /** Less is left to do, or as much with more bytes out. */
  predicate Nearer(v: SendView, n: nat, w: SendView, m: nat) {
    Work(w) < Work(v) || (Work(w) == Work(v) && SentMore(v, n, w, m))
  }

  lemma AdvanceIsNearer(v: SendView, io: Iocb, length: nat, b: Progress, n: nat, m: nat)
    requires v.omsg.Some? && Continues(v.cur, io, length, b) && m > n
    ensures Nearer(v, n, Advance(v, length, b), m)
  {
    hide HeaderFor, Work;
    SameWork(Advance(v, length, b), v);
  }

  /** All that a call of the printer brings the event layer, from n bytes out to m. */
  lemma FrameAdvances(v: SendView, done: bool, length: nat, b: Progress, n: nat, m: nat)
    requires Inv(v) && Chosen(v) && (v.writeEnabled || v.cur.Busy?) && (v.omsg.value.Fragmented? ==> v.obuf != [])
    requires Continues(v.cur, IoOf(v), length, b) && b.mask == b.h.key
    ensures var adv := Advance(v, length, b);
      && Inv(adv) && adv.cur.Busy? && SameMessage(adv, v)
      && Moved(Printed(v, done, b), length) == (if done && FrameComplete(adv) then FrameSent(adv) else adv)
      && (v.omsg.value.Fragmented? ==> v.mark + length <= |v.obuf|) && (length == 0 ==> adv.mark == v.mark)
      && (!FrameComplete(adv) ==> length < |IoOf(v).data|) && (m > n ==> Nearer(v, n, adv, m))
  {
    hide Inv, IoOf, FrameComplete, Nearer, HeaderFor, Advance, Moved, Printed, FrameSent;
    AdvanceKeeps(v, length, b);
    AdvanceIsMoved(v, done, length, b);
    if !FrameComplete(Advance(v, length, b)) {
      IncompleteIsShort(v, length, b);
    }
    if m > n {
      AdvanceIsNearer(v, IoOf(v), length, b, n, m);
    }
  }

  lemma LessIsNearer(v: SendView, n: nat, w: SendView, m: nat)
    requires Work(w) < Work(v)
    ensures Nearer(v, n, w, m)
  {
  }

  /** A step before that printed nothing. */
  lemma NearerBefore(u: SendView, v: SendView, n: nat, w: SendView, m: nat)
    requires Nearer(v, n, w, m) && Work(v) <= Work(u) && v.frames == u.frames && v.cur == u.cur
    ensures Nearer(u, n, w, m)
  {
  }

  /** Rounds before that got something done. */
  lemma NearerAfter(u: SendView, k: nat, v: SendView, n: nat, w: SendView, m: nat)
    requires Nearer(v, n, w, m) && Work(v) < Work(u)
    ensures Nearer(u, k, w, m)
  {
  }

  lemma SameWork(w: SendView, v: SendView)
    requires SameMessage(w, v)
    ensures Work(w) == Work(v)
  {
  }

  lemma DisableKeeps(v: SendView)
    requires Inv(v)
    ensures Inv(v.(writeEnabled := false))
  {
    hide Assemble, Data, Outstanding, LineOk, Size, HeaderMeant, SentOk, CtrlOk, HasClose, LogOk, Ends;
    hide ControlSent, DataSent;
    LogStopped(ControlSent(v.frames), v.hist.discarded, ControlInFlight(v.omsg), v.ctrlQ,
               v.closeQueued, v.writeEnabled, v.hist.log);
    assert Line(v.(writeEnabled := false)) == Line(v);
  }
}
