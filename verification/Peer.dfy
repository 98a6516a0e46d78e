/** What one side may send, seen from the other: the frames its bytes belong to, and the verdict on each of them. */
module Peer {
  import opened Bytes
  import opened Headers
  import opened Stream
  import opened Protocol
  import opened FrameOut
  import opened SendModel
  import opened RecvModel
  import Utf8

  // -- The frame under way, as it will be --------------------------------

  /** The state in which the printer has taken the rest of the frame under way. */
  function Finished(v: SendView): SendView
    requires Inv(v) && v.omsg.Some? && v.cur.Busy?
  {
    Advance(v, |IoOf(v).data|, v.cur.(sent := v.cur.sent + IoOf(v).data))
  }

  lemma FinishedKeeps(v: SendView)
    requires Inv(v) && v.cur.Busy?
    ensures v.omsg.Some? && Inv(Finished(v)) && FrameComplete(Finished(v))
    ensures v.cur.sent <= Finished(v).cur.sent
    ensures v.omsg.value.Fragmented? ==> v.obuf != []
  {
    BusyHasMessage(v);
    IoInRange(v);
    var io := IoOf(v);
    assert io.data[..|io.data|] == io.data;
    hide Inv;
    AdvanceKeeps(v, |io.data|, v.cur.(sent := v.cur.sent + io.data));
    FinishedByOffset(v);
  }

  lemma BusyHasMessage(v: SendView)
    requires Inv(v) && v.cur.Busy?
    ensures v.omsg.Some? && Chosen(v) && v.cur.mask == v.cur.h.key
    ensures v.omsg.value.Fragmented? ==> v.obuf != []
  {
    hide QueuesOk, ContentOk, FramesOk, CountersOk, CloseOk;
  }

  lemma FinishedByOffset(v: SendView)
    requires Inv(v) && v.cur.Busy? && v.omsg.Some? && Inv(Finished(v))
    ensures FrameComplete(Finished(v))
  {
    hide Inv, FrameComplete;
    BusyHasMessage(v);
    IoInRange(v);
    CompleteByOffset(Finished(v));
    if v.omsg.value.Whole? {
      WholeLength(v);
    }
  }

  /** The frames sent, and the one under way as if it were complete. */
  function Foreseen(v: SendView): seq<Frame>
    requires Inv(v)
  {
    if v.cur.Idle? then v.frames
    else
      BusyHasMessage(v);
      FinishedKeeps(v);
      v.frames + [FrameOf(Finished(v).cur)]
  }

  // -- What the frames hold ----------------------------------------------

  /** m is the beginning of an accepted message. */
  predicate Promised(accepted: seq<Msg>, m: Msg) {
    exists i | 0 <= i < |accepted| :: accepted[i].opcode == m.opcode && m.payload <= accepted[i].payload
  }

  /** The data messages in a reassembly are accepted ones, in order, and so is the one still open. */
  predicate Sound(accepted: seq<Msg>, a: Asm) {
    a.legal && Data(a.out) <= accepted && (a.open.Some? ==> Promised(accepted, a.open.value))
  }

  predicate AllSentOk(server: bool, fs: seq<Frame>) {
    forall i | 0 <= i < |fs| :: SentOk(server, fs[i])
  }

  lemma OutstandingPromises(done: seq<Msg>, open: Option<Msg>, obuf: seq<byte>, line: seq<OMsg>)
    requires line != [] && open.Some?
    ensures Promised(done + Outstanding(open, obuf, line), open.value)
  {
    hide Messages;
    assert (done + Outstanding(open, obuf, line))[|done|] == FrontMessage(open, obuf, line[0]);
    assert open.value.payload + obuf + Body(line[0]) == open.value.payload + (obuf + Body(line[0]));
  }

  lemma ContentIsSound(v: SendView)
    requires ContentOk(v) && LineOk(Assemble(v.frames).open, Line(v))
    ensures Sound(v.hist.accepted, Assemble(v.frames))
  {
    hide Assemble, Data, Outstanding, Promised, Line;
    var a := Assemble(v.frames);
    if a.open.Some? {
      OutstandingPromises(Data(a.out), a.open, v.obuf, Line(v));
    }
  }

  lemma FinishedIsSound(v: SendView)
    requires Inv(v) && FrameComplete(v)
    ensures Sound(v.hist.accepted, Assemble(v.frames + [FrameOf(v.cur)])) && SentOk(v.server, FrameOf(v.cur))
  {
    CompleteCurrent(v);
    hide Inv, Sound, Assemble, ContentOk, LineOk, SentOk, DataLength, FrameComplete;
    if IsControl(v.omsg.value.opcode) {
      RetireCtrlKeeps(v);
      ContentIsSound(Retire(FrameSent(v)));
    } else if v.omsg.value.Whole? || v.omsg.value.fin {
      RetireLineKeeps(v);
      ContentIsSound(Retire(FrameSent(v)));
    } else {
      NextFragmentLineKeeps(v);
      ContentIsSound(NextFragment(FrameSent(v)));
    }
  }

  /** Everything the peer may come to see is faithful, legal, and holds accepted messages only. */
  lemma ForeseenIsSound(v: SendView)
    requires Inv(v)
    ensures Sound(v.hist.accepted, Assemble(Foreseen(v))) && AllSentOk(v.server, Foreseen(v))
    ensures AllFaithful(Foreseen(v))
  {
    hide Sound, Assemble, QueuesOk, ContentOk, Coupled, CountersOk, CloseOk, Finished, Faithful, FrameComplete;
    assert FramesOk(v);
    if v.cur.Idle? {
      assert ContentOk(v) && LineOk(Assemble(v.frames).open, Line(v)) by {
        assert QueuesOk(v);
        SettledLine(v);
      }
      ContentIsSound(v);
    } else {
      FinishedKeeps(v);
      FinishedIsSound(Finished(v));
      FinishedSame(v);
    }
  }

  lemma SettledLine(v: SendView)
    requires QueuesOk(v)
    ensures LineOk(Assemble(v.frames).open, Line(v))
  {
  }

  lemma FinishedSame(v: SendView)
    requires Inv(v) && v.omsg.Some? && v.cur.Busy?
    ensures var w := Finished(v);
      w.frames == v.frames && w.hist.accepted == v.hist.accepted && w.server == v.server && w.cur.Busy?
      && w.cur.h == v.cur.h && w.cur.mask == v.cur.mask
  {
    hide Inv, IoOf;
  }

  // -- The verdict on a frame that was sent ------------------------------

  lemma PromisedShorter(accepted: seq<Msg>, m: Msg, p: Msg)
    requires Promised(accepted, m) && p.opcode == m.opcode && p.payload <= m.payload
    ensures Promised(accepted, p)
  {
  }

  lemma PromisedMember(accepted: seq<Msg>, ms: seq<Msg>, m: Msg)
    requires ms + [m] <= accepted
    ensures m in accepted && Promised(accepted, m)
  {
    assert accepted[|ms|] == (ms + [m])[|ms|];
  }

  /** A frame less is as sound. */
  lemma SoundBefore(accepted: seq<Msg>, a: Asm, f: Frame)
    requires Sound(accepted, Feed(a, f)) && (a.open.Some? ==> IsDataOpcode(a.open.value.opcode))
    ensures Sound(accepted, a)
  {
    hide Data, Promised;
    var b := Feed(a, f);
    if !IsControl(f.h.opcode) && a.open.Some? {
      var m := Msg(a.open.value.opcode, a.open.value.payload + f.payload);
      if f.h.fin {
        DataSnoc(a.out, m);
        PromisedMember(accepted, Data(a.out), m);
      }
      PromisedShorter(accepted, m, a.open.value);
    }
    DataGrows(a.out, b.out);
  }

  lemma {:induction false} SoundPrefix(accepted: seq<Msg>, fs: seq<Frame>, k: nat)
    requires Sound(accepted, Assemble(fs)) && k <= |fs|
    ensures Sound(accepted, Assemble(fs[..k]))
    decreases |fs|
  {
    hide *;
    if k == |fs| {
      assert fs[..k] == fs;
    } else {
      var init, last := fs[..|fs| - 1], fs[|fs| - 1];
      assert fs == init + [last] && init[..k] == fs[..k];
      AssembleSnoc(init, last);
      OpenIsData(init);
      SoundBefore(accepted, Assemble(init), last);
      SoundPrefix(accepted, init, k);
    }
  }

  /** What the receiver's limits and the encoding of text ask of the messages. */
  ghost predicate Acceptable(cfg: Config, ms: seq<Msg>) {
    && cfg.maxLength < COUNTER_LIMIT
    && forall i | 0 <= i < |ms| ::
      |ms[i].payload| <= cfg.maxLength && (ms[i].opcode == TEXT ==> Utf8.WellFormed(ms[i].payload))
  }

  /** The message a frame belongs to, as far as it goes, is promised; with the last frame it is an accepted one. */
  lemma FrameIsPromised(accepted: seq<Msg>, a: Asm, h: PrintableHeader, payload: seq<byte>)
    requires Sound(accepted, Feed(a, Received(h, payload))) && WellFormed(h) && !IsControl(h.opcode)
    requires a.open.Some? ==> IsDataOpcode(a.open.value.opcode)
    ensures InTurn(a.open, h.opcode) && Promised(accepted, Completed(a.open, h, payload))
    ensures h.fin ==> Completed(a.open, h, payload) in accepted
  {
    hide Data, Promised;
    FeedReceived(a, h, payload);
    var m := Completed(a.open, h, payload);
    hide Feed, Completed;
    if h.fin {
      DataSnoc(a.out, m);
      PromisedMember(accepted, Data(a.out), m);
    }
  }

  lemma PromisedIsShort(cfg: Config, accepted: seq<Msg>, m: Msg)
    requires Acceptable(cfg, accepted) && Promised(accepted, m)
    ensures |m.payload| <= cfg.maxLength && (m.opcode == TEXT ==> Utf8.Viable(m.payload))
  {
    hide Utf8.WellFormed, Utf8.Viable;
    var i :| 0 <= i < |accepted| && accepted[i].opcode == m.opcode && m.payload <= accepted[i].payload;
    if m.opcode == TEXT {
      WellFormedIsViable(accepted[i].payload);
      ViablePrefix(m.payload, accepted[i].payload);
    }
  }

  lemma NoText()
    ensures Utf8.WellFormed([]) && Utf8.Viable([])
  {
    WellFormedIsViable([]);
  }

  /** A frame of a promised message passes the tests on its header. */
  lemma HeaderIsFine(cfg: Config, accepted: seq<Msg>, a: Asm, h: PrintableHeader, payload: seq<byte>)
    requires Acceptable(cfg, accepted) && Sound(accepted, Feed(a, Received(h, payload)))
    requires WellFormed(h) && h.rsv == 0 && h.key.Some? == cfg.server && |payload| == h.len
    requires IsControl(h.opcode) ==> h.len <= cfg.maxLength
    requires a.open.Some? ==> IsDataOpcode(a.open.value.opcode)
    ensures JudgeHeader(cfg, a.open, h) == Fine
  {
    hide Sound, Promised, Acceptable, Feed;
    SoundIsInTurn(accepted, a, Received(h, payload));
    assert cfg.maxLength < COUNTER_LIMIT by { AcceptableLimit(cfg, accepted); }
    if !IsControl(h.opcode) {
      FrameIsPromised(accepted, a, h, payload);
      PromisedIsShort(cfg, accepted, Completed(a.open, h, payload));
    }
  }

  lemma SoundIsInTurn(accepted: seq<Msg>, a: Asm, f: Frame)
    requires Sound(accepted, Feed(a, f))
    ensures InTurn(a.open, f.h.opcode)
  {
    hide Data;
  }

  lemma AcceptableLimit(cfg: Config, ms: seq<Msg>)
    requires Acceptable(cfg, ms)
    ensures cfg.maxLength < COUNTER_LIMIT
  {
  }

  /** And so does its content, unless it is a Close. */
  lemma ContentIsFine(cfg: Config, accepted: seq<Msg>, a: Asm, h: PrintableHeader, payload: seq<byte>)
    requires Acceptable(cfg, accepted) && Sound(accepted, Feed(a, Received(h, payload)))
    requires WellFormed(h) && |payload| == h.len && h.opcode != CLOSE
    requires a.open.Some? ==> IsDataOpcode(a.open.value.opcode)
    ensures JudgeContent(a.open, h, payload, []) == Fine
  {
    hide Utf8.WellFormed, Utf8.Viable, Sound, Promised, Feed;
    NoText();
    if !IsControl(h.opcode) {
      FrameIsPromised(accepted, a, h, payload);
      PromisedIsShort(cfg, accepted, Completed(a.open, h, payload));
    }
  }

  /** A frame sent for acceptable messages is never refused, except perhaps for the content of a Close. */
  lemma SentIsFine(cfg: Config, accepted: seq<Msg>, fs: seq<Frame>, k: nat, got: seq<byte>, checked: seq<byte>)
    requires Acceptable(cfg, accepted) && Sound(accepted, Assemble(fs)) && AllSentOk(!cfg.server, fs)
    requires k < |fs| && got <= fs[k].payload && (IsControl(fs[k].h.opcode) ==> fs[k].h.len <= cfg.maxLength)
    ensures JudgeHeader(cfg, Assemble(fs[..k]).open, fs[k].h) == Fine
    ensures fs[k].h.opcode != CLOSE ==> Judge(cfg, Assemble(fs[..k]).open, fs[k].h, got, checked) == Fine
  {
    hide Sound, Assemble, Acceptable, JudgeHeader, JudgeContent, Feed;
    var f, a := fs[k], Assemble(fs[..k]);
    assert SentOk(!cfg.server, f);
    assert f == Received(f.h, f.payload);
    SoundPrefix(accepted, fs, k + 1);
    assert fs[..k + 1] == fs[..k] + [f];
    AssembleSnoc(fs[..k], f);
    OpenIsData(fs[..k]);
    HeaderIsFine(cfg, accepted, a, f.h, f.payload);
    if f.h.opcode != CLOSE {
      ContentIsFine(cfg, accepted, a, f.h, f.payload);
      JudgePartial(cfg, a.open, f.h, got, f.payload);
      CheckedIsForClose(cfg, a.open, f.h, got, checked);
    }
  }

  lemma CheckedIsForClose(cfg: Config, open: Option<Msg>, h: Header, got: seq<byte>, checked: seq<byte>)
    requires h.opcode != CLOSE
    ensures Judge(cfg, open, h, got, checked) == Judge(cfg, open, h, got, [])
  {
  }

  // -- Control messages --------------------------------------------------

  lemma {:induction false} ControlGrows(ms: seq<Msg>, ns: seq<Msg>)
    requires ms <= ns
    ensures Control(ms) <= Control(ns)
    decreases |ns|
  {
    hide *;
    if ms == ns {
    } else {
      var init := ns[..|ns| - 1];
      assert ms <= init && ns == init + [ns[|ns| - 1]];
      ControlGrows(ms, init);
      ControlSnoc(init, ns[|ns| - 1]);
    }
  }

  /** The pings are among the control messages. */
  lemma {:induction false} PingsAreControl(ms: seq<Msg>)
    ensures Pings(Control(ms)) == Pings(ms)
    decreases |ms|
  {
    if ms != [] {
      var init, m := ms[..|ms| - 1], ms[|ms| - 1];
      PingsAreControl(init);
      PingsSnoc(Control(init), m);
      assert Pings(init) + [] == Pings(init);
    }
  }

  /** Control messages but for a Close at the end. */
  function Unclosed(ms: seq<Msg>): seq<Msg> {
    if EndsInClose(ms) then ms[..|ms| - 1] else ms
  }

  lemma UnclosedGrows(ms: seq<Msg>, ns: seq<Msg>)
    requires ms <= ns
    ensures Unclosed(ms) <= Unclosed(ns)
    ensures forall m | m in ms :: m in ns
  {
  }

  lemma UnclosedPings(ms: seq<Msg>)
    ensures Pings(Unclosed(ms)) == Pings(ms)
  {
    if EndsInClose(ms) {
      assert ms == ms[..|ms| - 1] + [ms[|ms| - 1]];
      PingsSnoc(ms[..|ms| - 1], ms[|ms| - 1]);
      assert Pings(ms[..|ms| - 1]) + [] == Pings(ms[..|ms| - 1]);
    }
  }

  /** What was sent of the control messages queued: the first of them, and perhaps a Close that overtook others. */
  lemma ControlIsLogged(v: SendView)
    requires Inv(v)
    ensures Unclosed(ControlSent(v.frames)) <= LogMsgs(v.hist.log)
    ensures forall m | m in ControlSent(v.frames) :: m in LogMsgs(v.hist.log)
    ensures v.hist.discarded == [] && v.ctrlQ == [] && ControlInFlight(v.omsg) == [] ==>
      ControlSent(v.frames) == LogMsgs(v.hist.log)
  {
    hide QueuesOk, ContentOk, Coupled, FramesOk, CountersOk, CloseOk, EndsOk, ControlSent, LogMsgs;
    var sent, dropped := ControlSent(v.frames), Messages(v.hist.discarded);
    if EndsInClose(sent) {
      assert sent == sent[..|sent| - 1] + [sent[|sent| - 1]];
      assert Settled(sent, dropped)[|sent| - 1 + |dropped|] == sent[|sent| - 1];
    }
    assert Settled(sent, dropped) <= LogMsgs(v.hist.log);
  }

  /** A Close that was processed last completes the last message. */
  lemma {:induction false} CloseComesLast(fs: seq<Frame>, taken: bool)
    requires CloseLast(fs, taken) && Assemble(fs).legal
    ensures forall i | 0 <= i < |Assemble(fs).out| && Assemble(fs).out[i].opcode == CLOSE ::
      taken && i == |Assemble(fs).out| - 1
    decreases |fs|
  {
    if fs != [] {
      var init, f := fs[..|fs| - 1], fs[|fs| - 1];
      AssembleGrows(init, fs);
      OpenIsData(init);
      forall i | 0 <= i < |init|
        ensures init[i].h.opcode != CLOSE
      {
        assert fs[i] == init[i];
      }
      CloseComesLast(init, false);
    }
  }

  /** The payloads of the pongs among ms. */
  function Pongs(ms: seq<Msg>): seq<seq<byte>> {
    if ms == [] then []
    else if ms[|ms| - 1].opcode == PONG then Pongs(ms[..|ms| - 1]) + [ms[|ms| - 1].payload]
    else Pongs(ms[..|ms| - 1])
  }

  lemma PongsSnoc(ms: seq<Msg>, m: Msg)
    ensures Pongs(ms + [m]) == Pongs(ms) + if m.opcode == PONG then [m.payload] else []
  {
    assert (ms + [m])[..|ms|] == ms;
    assert Pongs(ms) + [] == Pongs(ms);
  }

  lemma {:induction false} PongsOf(pongs: seq<seq<byte>>)
    ensures Pongs(PongMsgs(pongs)) == pongs
    decreases |pongs|
  {
    if pongs != [] {
      var init, p := pongs[..|pongs| - 1], pongs[|pongs| - 1];
      PongsOf(init);
      assert pongs == init + [p];
      PongMsgsSnoc(init, p);
      PongsSnoc(PongMsgs(init), Msg(PONG, p));
    }
  }

  /** The pongs the library queued are those on record. */
  lemma RepliedPongs(log: seq<Logged>, pongs: seq<seq<byte>>, stop: Stop)
    requires RepliesOk(log, pongs, stop)
    ensures Pongs(Replies(log)) == pongs
  {
    PongsOf(pongs);
    PongsSnoc(PongMsgs(pongs), Msg(CLOSE, AnswerTo(stop)));
    hide PongMsgs, Pongs;
    assert pongs + [] == pongs;
  }

  // -- What is handed over -----------------------------------------------

  /** The data messages among those handed to the application. */
  function DataOnly(ds: seq<Delivery>): seq<Msg> {
    if ds == [] then []
    else
      var d, rest := ds[|ds| - 1], DataOnly(ds[..|ds| - 1]);
      if IsControl(d.opcode) then rest else rest + [Msg(d.opcode, d.payload)]
  }

  /** The control messages among those handed to the application. */
  function ControlOnly(ds: seq<Delivery>): seq<Msg> {
    if ds == [] then []
    else
      var d, rest := ds[|ds| - 1], ControlOnly(ds[..|ds| - 1]);
      if IsControl(d.opcode) then rest + [Msg(d.opcode, d.payload)] else rest
  }

  lemma {:induction false} ControlDelivered(buffering: bool, ms: seq<Msg>)
    ensures ControlOnly(Deliveries(buffering, ms)) == Control(ms)
    decreases |ms|
  {
    if ms != [] {
      var init := ms[..|ms| - 1];
      ControlDelivered(buffering, init);
      assert Deliveries(buffering, ms)[..|ms| - 1] == Deliveries(buffering, init);
    }
  }

  lemma DataOnlySnoc(ds: seq<Delivery>, d: Delivery)
    ensures DataOnly(ds + [d]) ==
      if IsControl(d.opcode) then DataOnly(ds) else DataOnly(ds) + [Msg(d.opcode, d.payload)]
  {
    assert (ds + [d])[..|ds|] == ds;
  }

  lemma {:induction false} DataOnlyGrows(ds: seq<Delivery>, es: seq<Delivery>)
    requires ds <= es
    ensures DataOnly(ds) <= DataOnly(es)
    decreases |es|
  {
    hide *;
    if ds == es {
    } else {
      var init := es[..|es| - 1];
      assert ds <= init && es == init + [es[|es| - 1]];
      DataOnlyGrows(ds, init);
      DataOnlySnoc(init, es[|es| - 1]);
    }
  }

  /** With buffering on, every data message reassembled is handed over as it is. */
  lemma {:induction false} DataDelivered(ms: seq<Msg>)
    ensures DataOnly(Deliveries(true, ms)) == Data(ms)
    decreases |ms|
  {
    if ms != [] {
      var init := ms[..|ms| - 1];
      DataDelivered(init);
      assert Deliveries(true, ms)[..|ms| - 1] == Deliveries(true, init);
    }
  }
}
