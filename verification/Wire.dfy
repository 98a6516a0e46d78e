/** What one side received of what the other side sent: the two accounts compared. */
module Wire {
  import opened Bytes
  import opened Headers
  import opened Stream
  import opened Protocol
  import opened SendModel
  import opened RecvModel
  import opened Peer
  import opened Chunking

  /** bytes hold the frames sent and a part of the one under way; x was fed a part of them, in the opposite role. */
  ghost predicate Carried(v: SendView, bytes: seq<byte>, x: Account) {
    && Inv(v) && Parsed(v, bytes)
    && x.fed <= bytes && Delivered(x) && Standing(x) && x.cfg.server == !v.server
  }

  predicate Parsed(v: SendView, bytes: seq<byte>) {
    var p := ParseStream(bytes);
    && p.frames == v.frames && !p.tail.Violation?
    && (p.tail.InPayload? ==>
          && v.cur.Busy? && p.tail.h == v.cur.h && p.tail.got == v.cur.sent
          && |v.cur.sent| < v.cur.h.len)
  }

  /** The reader has used up what was written, or stopped at a Close. */
  ghost predicate ReadOut(bytes: seq<byte>, x: Account) {
    (x.fed == bytes && AllFine(x)) || CloseSeen(x.stop)
  }

  /** Reading stopped at a Close. */
  predicate CloseSeen(stop: Stop) {
    stop.CloseTaken? || stop.CloseUnanswered? || (stop.Refused? && stop.h.opcode == CLOSE)
  }

  // -- Frames ------------------------------------------------------------

  /** The frames processed are the first ones of those sent completely. */
  lemma ProcessedAreSent(v: SendView, bytes: seq<byte>, x: Account)
    requires Carried(v, bytes, x)
    ensures x.processed <= v.frames
  {
    hide ParseStream, Assemble, FineFrames, Deliveries, Inv, Standing, CloseLast;
    ParsedPart(x.fed, bytes);
  }

  /** The frame the reader speaks of is the one sent in its place, or the one under way. */
  lemma NextIsSent(v: SendView, bytes: seq<byte>, x: Account, h: PrintableHeader, got: seq<byte>)
    requires Carried(v, bytes, x) && NextIn(ParseStream(x.fed), |x.processed|, h, got)
    ensures var k := |x.processed|;
      if k < |v.frames| then v.frames[k].h == h && got <= v.frames[k].payload
      else k == |v.frames| && v.cur.Busy? && v.cur.h == h && got <= v.cur.sent && |v.cur.sent| < h.len
  {
    hide ParseStream, Inv, Delivered, Standing;
    assert x.fed + bytes[|x.fed|..] == bytes;
    NextInGrows(x.fed, bytes[|x.fed|..], |x.processed|, h, got);
    ProcessedAreSent(v, bytes, x);
  }

  /** A Close that was met is the last frame sent, or the one under way. */
  lemma CloseIsLastSent(v: SendView, bytes: seq<byte>, x: Account)
    requires Carried(v, bytes, x) && CloseSeen(x.stop)
    ensures x.processed == v.frames || (|x.processed| == |v.frames| - 1 && v.frames[|x.processed|].h.opcode == CLOSE)
    ensures x.stop.CloseTaken? ==> x.processed == v.frames
    ensures x.stop.CloseUnanswered? ==>
      && |x.processed| == |v.frames| - 1
      && v.frames[|x.processed|].h == x.stop.h && v.frames[|x.processed|].payload == x.stop.payload
  {
    hide ParseStream, Assemble, FineFrames, Deliveries, Inv, CloseLast, Judge, JudgeHeader, Pieces;
    hide CheckedOver, AllFine, Faithful;
    ProcessedAreSent(v, bytes, x);
    var k := |x.processed|;
    if x.stop.CloseTaken? {
      CloseEndsWriting(v, k - 1);
    } else {
      NextIsSent(v, bytes, x, x.stop.h, if x.stop.Refused? then x.stop.got else x.stop.payload);
      if k < |v.frames| {
        if x.stop.CloseUnanswered? {
          SentFaithful(v, k);
        }
        CloseEndsWriting(v, k);
      }
    }
  }

  lemma SentFaithful(v: SendView, k: nat)
    requires Inv(v) && k < |v.frames|
    ensures SentOk(v.server, v.frames[k]) && |v.frames[k].payload| == v.frames[k].h.len
  {
    hide QueuesOk, ContentOk, Coupled, CountersOk, CloseOk, ControlOk, EndsOk;
  }

  // -- Data messages -----------------------------------------------------

  lemma DeliveredData(x: Account)
    requires Delivered(x) && x.cfg.buffering
    ensures DataOnly(x.delivered) == Data(Assemble(x.processed).out)
  {
    hide ParseStream, Assemble, FineFrames, Deliveries, CloseLast, Data, DataOnly;
    DataDelivered(Assemble(x.processed).out);
  }

  /** Whatever was sent and read so far, the data messages delivered are the first ones accepted for sending. */
  lemma DeliveredIsPrefix(v: SendView, bytes: seq<byte>, x: Account)
    requires Carried(v, bytes, x) && x.cfg.buffering
    ensures DataOnly(x.delivered) <= v.hist.accepted
  {
    hide Parsed, Delivered, Standing, Inv, Assemble, Data, DataOnly;
    ProcessedAreSent(v, bytes, x);
    SentIsPrefix(v);
    DeliveredData(x);
    AssembleGrows(x.processed, v.frames);
    DataGrows(Assemble(x.processed).out, Assemble(v.frames).out);
  }

  /** A reader who has used up its input or stopped at a Close was given exactly the messages sent completely. */
  lemma CompletedIsDelivered(v: SendView, bytes: seq<byte>, x: Account)
    requires Carried(v, bytes, x) && x.cfg.buffering && ReadOut(bytes, x)
    ensures DataOnly(x.delivered) == Data(Assemble(v.frames).out)
  {
    hide Delivered, Standing, Inv, Assemble, Data, DataOnly, ParseStream;
    DeliveredData(x);
    if CloseSeen(x.stop) {
      CloseIsLastSent(v, bytes, x);
      if x.processed != v.frames {
        ProcessedAreSent(v, bytes, x);
        CloseAddsNoData(v, x.processed);
      }
    }
  }

  lemma CloseAddsNoData(v: SendView, init: seq<Frame>)
    requires Inv(v) && init <= v.frames && |init| == |v.frames| - 1 && v.frames[|init|].h.opcode == CLOSE
    ensures Data(Assemble(init).out) == Data(Assemble(v.frames).out)
  {
    hide Inv, Assemble, Data;
    var f := v.frames[|init|];
    assert v.frames == init + [f];
    AssembleSnoc(init, f);
    SentIsPrefix(v);
    DataSnoc(Assemble(init).out, Msg(f.h.opcode, f.payload));
  }

  /** Once all data messages are sent, they are all delivered, whether the reader waits for more or took a Close. */
  lemma DrainedDeliversAll(v: SendView, bytes: seq<byte>, x: Account)
    requires Carried(v, bytes, x) && x.cfg.buffering && ReadOut(bytes, x) && Line(v) == []
    ensures DataOnly(x.delivered) == v.hist.accepted
  {
    hide Parsed, Delivered, Standing, Inv, Assemble, Data, DataOnly, ReadOut;
    CompletedIsDelivered(v, bytes, x);
    DrainedSentAll(v);
  }

  // -- Refusals ----------------------------------------------------------

  /** Every control frame sent, or under way, fits the reader's limit. */
  predicate ControlFits(cfg: Config, fs: seq<Frame>) {
    forall i | 0 <= i < |fs| && IsControl(fs[i].h.opcode) :: fs[i].h.len <= cfg.maxLength
  }

  /** Nothing acceptable is refused: no violation is found, and at most the content of a Close is refused. */
  lemma NothingRefused(v: SendView, bytes: seq<byte>, x: Account)
    requires Carried(v, bytes, x) && Acceptable(x.cfg, v.hist.accepted) && ControlFits(x.cfg, Foreseen(v))
    ensures !x.stop.Violated?
    ensures x.stop.Refused? ==>
      x.stop.h.opcode == CLOSE && JudgeHeader(x.cfg, Assemble(x.processed).open, x.stop.h) == Fine
  {
    if x.stop.Violated? {
      NoViolation(v, bytes, x);
    } else if x.stop.Refused? {
      OnlyCloseRefused(v, bytes, x);
    }
  }

  lemma NoViolation(v: SendView, bytes: seq<byte>, x: Account)
    requires Carried(v, bytes, x)
    ensures !x.stop.Violated?
  {
    hide Inv, ParseStream, Delivered, Assemble, Judge, JudgeHeader, Pieces;
    assert x.fed + bytes[|x.fed|..] == bytes;
    ParseGrows(x.fed, bytes[|x.fed|..]);
  }

  lemma OnlyCloseRefused(v: SendView, bytes: seq<byte>, x: Account)
    requires Carried(v, bytes, x) && Acceptable(x.cfg, v.hist.accepted) && ControlFits(x.cfg, Foreseen(v))
    requires x.stop.Refused?
    ensures x.stop.h.opcode == CLOSE && JudgeHeader(x.cfg, Assemble(x.processed).open, x.stop.h) == Fine
  {
    hide Inv, Sound, AllFaithful, ParseStream, Acceptable, Assemble, Judge, JudgeHeader, Foreseen, Pieces;
    hide Parsed, Delivered;
    hide AllSentOk, NextIn;
    var k, fs := |x.processed|, Foreseen(v);
    ForeseenIsSound(v);
    ForeseenExtends(v);
    ProcessedAreSent(v, bytes, x);
    NextIsSent(v, bytes, x, x.stop.h, x.stop.got);
    assert fs[..k] == x.processed;
    SentIsFine(x.cfg, v.hist.accepted, fs, k, x.stop.got, x.stop.checked);
  }

  /** The frames sent, and with one under way one more, whose payload extends what is out. */
  lemma ForeseenExtends(v: SendView)
    requires Inv(v)
    ensures v.frames <= Foreseen(v)
    ensures v.cur.Busy? ==> |Foreseen(v)| == |v.frames| + 1
    ensures v.cur.Busy? ==> Foreseen(v)[|v.frames|].h == v.cur.h && v.cur.sent <= Foreseen(v)[|v.frames|].payload
  {
    hide Inv, Finished, FrameComplete;
    if v.cur.Busy? {
      FinishedKeeps(v);
      FinishedSame(v);
    }
  }

  // -- Control messages --------------------------------------------------

  /**
   The control messages delivered are the first of those queued, but for a Close at the end, which may have overtaken
   others.
   */
  lemma ControlIsPrefix(v: SendView, bytes: seq<byte>, x: Account)
    requires Carried(v, bytes, x)
    ensures Unclosed(Control(Assemble(x.processed).out)) <= LogMsgs(v.hist.log)
    ensures forall m | m in Control(Assemble(x.processed).out) :: m in LogMsgs(v.hist.log)
  {
    hide Parsed, Delivered, Standing, Inv, Assemble, Control, Unclosed, LogMsgs;
    ProcessedAreSent(v, bytes, x);
    AssembleGrows(x.processed, v.frames);
    ControlGrows(Assemble(x.processed).out, Assemble(v.frames).out);
    UnclosedGrows(Control(Assemble(x.processed).out), Control(Assemble(v.frames).out));
    ControlIsLogged(v);
  }

  /** So the pings delivered are the first ones queued. */
  lemma PingsArePrefix(v: SendView, bytes: seq<byte>, x: Account)
    requires Carried(v, bytes, x)
    ensures Pings(Assemble(x.processed).out) <= Pings(LogMsgs(v.hist.log))
  {
    hide Carried, Assemble, Control, Unclosed, LogMsgs, Pings;
    var out := Assemble(x.processed).out;
    ControlIsPrefix(v, bytes, x);
    PingsAreControl(out);
    UnclosedPings(Control(out));
    PingsGrow(Unclosed(Control(out)), LogMsgs(v.hist.log));
  }

  /** And all of them, when all control messages are sent and the reader has used up its input. */
  lemma AllPingsArrive(v: SendView, bytes: seq<byte>, x: Account)
    requires Carried(v, bytes, x) && x.fed == bytes && AllFine(x)
    requires v.ctrlQ == [] && v.hist.discarded == [] && (v.omsg.None? || !IsControl(v.omsg.value.opcode))
    ensures Pings(Assemble(x.processed).out) == Pings(LogMsgs(v.hist.log))
  {
    hide Delivered, Standing, Inv, Assemble, Control, LogMsgs, Pings, ParseStream;
    ControlIsLogged(v);
    PingsAreControl(Assemble(x.processed).out);
  }
}
