/** Contexts that are fed the same bytes: what they deliver, and where they stop, however the input was cut up. */
module Chunking {
  import opened Bytes
  import opened Headers
  import opened Stream
  import opened Protocol
  import opened RecvModel
  import opened Peer
  import opened Event
  import FrameIn
  import Utf8

  /** What a context can say of its receiving; idle tells that it reads and has used up its input. */
  datatype Account =
    Account(cfg: Config, fed: seq<byte>, processed: seq<Frame>, delivered: seq<Delivery>, stop: Stop, idle: bool)

  /** The frames processed are those in front, all of them fine, and were delivered. */
  ghost predicate Delivered(x: Account) {
    && x.processed <= ParseStream(x.fed).frames
    && Assemble(x.processed).legal && FineFrames(x.cfg, x.processed)
    && x.delivered == Deliveries(x.cfg.buffering, Assemble(x.processed).out)
    && CloseLast(x.processed, x.stop.CloseTaken?)
  }

  /** Where the context stands, or why it stopped. */
  ghost predicate Standing(x: Account) {
    var p, k := ParseStream(x.fed), |x.processed|;
    match x.stop
    case Running => true
    case Refused(verdict, h, got, checked, pieces) =>
      && Printable(h) && NextIn(p, k, h, got) && (got == [] ==> h.len == 0)
      && verdict != Fine && Judge(x.cfg, Assemble(x.processed).open, h, got, checked) == verdict
      && (JudgeHeader(x.cfg, Assemble(x.processed).open, h) == Fine ==> Pieces(h, got, checked, pieces))
    case CloseUnanswered(h, payload, pieces) =>
      && Printable(h) && NextIn(p, k, h, payload) && |payload| == h.len && CloseChecked(h, payload, pieces)
      && FineFrame(x.cfg, Assemble(x.processed).open, Received(h, payload))
    case CloseTaken(payload, pieces) =>
      k > 0 && x.processed[k - 1].payload == payload && CloseChecked(x.processed[k - 1].h, payload, pieces)
    case Violated => p == Parse(x.processed, Violation)
    case Failed(_) => AllFine(x)
  }

  /** Everything that came was processed, and what is left over is fine, a Close aside. */
  ghost predicate AllFine(x: Account) {
    var p := ParseStream(x.fed);
    p.frames == x.processed && !p.tail.Violation? && TailFine(x.cfg, x.processed, p.tail)
  }

  /** x has used up its input, or has stopped reading for a reason of its own. */
  ghost predicate UsedUp(x: Account) {
    Delivered(x) && Standing(x) && (if x.idle then AllFine(x) else !x.stop.Running?)
  }

  /** A Close was not taken that another context may take: one had been queued before, or its text was refused. */
  predicate CloseDisputed(stop: Stop) {
    stop.CloseUnanswered? || CloseRefused(stop)
  }

  predicate CloseRefused(stop: Stop) {
    stop.Refused? && stop.verdict == Refuse(INVALID_DATA) && stop.h.opcode == CLOSE
  }

  // -- Single frames -----------------------------------------------------

  /** A frame that was processed somewhere is refused elsewhere only if it is a Close, for its text. */
  lemma RefusedElsewhere(cfg: Config, fs: seq<Frame>, k: nat, h: Header, got: seq<byte>, checked: seq<byte>)
    requires FineFrames(cfg, fs) && k < |fs| && fs[k].h == h && got <= fs[k].payload && |fs[k].payload| == h.len
    requires Judge(cfg, Assemble(fs[..k]).open, h, got, checked) != Fine
    ensures h.opcode == CLOSE && Judge(cfg, Assemble(fs[..k]).open, h, got, checked) == Refuse(INVALID_DATA)
  {
    var open := Assemble(fs[..k]).open;
    assert FineFrame(cfg, open, fs[k]);
    hide Assemble, FineFrames, Utf8.Viable, Utf8.WellFormed, JudgeHeader, TextSoFar;
    if h.opcode != CLOSE {
      JudgePartial(cfg, open, h, got, fs[k].payload);
      CheckedIsForClose(cfg, open, h, got, checked);
    } else if |got| == h.len {
      assert got == fs[k].payload;
    }
  }

  /** Refusals of one frame that is no Close agree, whatever of it had come. */
  lemma RefusalsAgree(cfg: Config, open: Option<Msg>, h: Header, got: seq<byte>, checked: seq<byte>,
                      got': seq<byte>, checked': seq<byte>)
    requires h.opcode != CLOSE
    requires Judge(cfg, open, h, got, checked) != Fine && Judge(cfg, open, h, got', checked') != Fine
    ensures Judge(cfg, open, h, got, checked) == Judge(cfg, open, h, got', checked')
  {
    hide Utf8.Viable, Utf8.WellFormed, JudgeHeader, TextSoFar;
  }

  /** A frame that is still fine was fine before. */
  lemma RefusalStays(cfg: Config, open: Option<Msg>, h: Header, got: seq<byte>, more: seq<byte>)
    requires h.opcode != CLOSE && got <= more && |more| < h.len && Judge(cfg, open, h, more, []) == Fine
    ensures Judge(cfg, open, h, got, []) == Fine
  {
    hide Utf8.Viable, Utf8.WellFormed, JudgeHeader;
    ViablePrefix(TextSoFar(open, h, got, []), TextSoFar(open, h, more, []));
  }

  lemma OnePiece(h: Header, got: seq<byte>, pieces: seq<seq<byte>>)
    requires h.opcode == CLOSE && Pieces(h, got, CheckedOver(h, pieces), pieces) && |pieces| <= 1
    ensures CheckedOver(h, pieces) == TextPart(CLOSE, got)
  {
    CheckedLength(h, pieces);
  }

  /** A Close whose payload is fine in one piece is fine in every one of its beginnings. */
  lemma WholeReasonFine(h: Header, payload: seq<byte>, pieces: seq<seq<byte>>,
                        got: seq<byte>, checked: seq<byte>, pieces': seq<seq<byte>>)
    requires h.fin && |payload| == h.len && CloseChecked(h, payload, pieces) && |pieces| <= 1
    requires Pieces(h, got, checked, pieces') && |pieces'| <= 1 && got <= payload
    ensures JudgeContent(None, h, got, checked) != Refuse(INVALID_DATA)
  {
    OnePiece(h, payload, pieces);
    OnePiece(h, got, pieces');
    hide Utf8.Viable, Utf8.WellFormed, Pieces, CheckedOver;
    WellFormedIsViable(TextPart(CLOSE, payload));
    ViablePrefix(TextPart(CLOSE, got), TextPart(CLOSE, payload));
    if |got| == h.len {
      assert got == payload;
    }
  }

  lemma CloseVerdict(cfg: Config, open: Option<Msg>, h: Header, got: seq<byte>, checked: seq<byte>)
    requires h.opcode == CLOSE && Judge(cfg, open, h, got, checked) == Refuse(INVALID_DATA)
    ensures JudgeHeader(cfg, open, h) == Fine && JudgeContent(None, h, got, checked) == Refuse(INVALID_DATA)
  {
    hide Utf8.Viable, Utf8.WellFormed, Announced;
  }

  lemma ParsedFaithful(s: seq<byte>, k: nat)
    requires k < |ParseStream(s).frames|
    ensures Faithful(ParseStream(s).frames[k])
  {
    hide ParseStream, Faithful;
    PrintParsed(s);
  }

  /** Two contexts that speak of the frame in one place speak of one frame. */
  lemma SameFrame(p: Parse, k: nat, h: PrintableHeader, got: seq<byte>, h': PrintableHeader, got': seq<byte>)
    requires NextIn(p, k, h, got) && NextIn(p, k, h', got')
    ensures h == h' && (got <= got' || got' <= got)
  {
  }

  // -- The frames processed ----------------------------------------------

  lemma ParsedPart(s: seq<byte>, t: seq<byte>)
    requires s <= t
    ensures ParseStream(s).frames <= ParseStream(t).frames
  {
    hide ParseStream;
    assert s + t[|s|..] == t;
    ParseGrows(s, t[|s|..]);
  }

  /** Where y got further than x, x stopped at a Close that it did not take. */
  lemma FurtherThan(y: Account, x: Account)
    requires Delivered(y) && UsedUp(x) && y.cfg == x.cfg && y.fed <= x.fed && |y.processed| > |x.processed|
    ensures CloseDisputed(x.stop)
    ensures var f := y.processed[|x.processed|];
      && y.processed == x.processed + [f] && f.h == x.stop.h && f.h.opcode == CLOSE && y.stop.CloseTaken?
      && (x.stop.Refused? ==> x.stop.got <= f.payload) && |f.payload| == f.h.len && WellFormed(f.h)
  {
    hide ParseStream, Assemble, FineFrames, Deliveries, Judge, JudgeHeader, Pieces, CheckedOver;
    hide Utf8.WellFormed, TailFine;
    var k, fs := |x.processed|, ParseStream(x.fed).frames;
    ParsedPart(y.fed, x.fed);
    assert y.processed[k] == fs[k] && y.processed[..k] == x.processed;
    ParsedFaithful(x.fed, k);
    if x.stop.Refused? {
      RefusedElsewhere(y.cfg, y.processed, k, x.stop.h, x.stop.got, x.stop.checked);
    }
    assert k > 0 ==> y.processed[k - 1] == x.processed[k - 1];
  }

  lemma OneCloseMore(y: Account, x: Account, f: Frame)
    requires Delivered(y) && Delivered(x) && y.cfg == x.cfg && y.processed == x.processed + [f] && f.h.opcode == CLOSE
    ensures var d := Deliver(x.cfg.buffering, Msg(f.h.opcode, f.payload));
      d.opcode == CLOSE && y.delivered == x.delivered + [d] && DataOnly(y.delivered) == DataOnly(x.delivered)
  {
    hide ParseStream, Assemble, FineFrames, Deliveries, CloseLast;
    AssembleSnoc(x.processed, f);
    DeliveriesSnoc(x.cfg.buffering, Assemble(x.processed).out, Msg(f.h.opcode, f.payload));
    DataOnlySnoc(x.delivered, Deliver(x.cfg.buffering, Msg(f.h.opcode, f.payload)));
  }

  /**
   What is delivered depends on the bytes alone: a context that has seen a part of the bytes another one was fed
   has delivered the first of its messages, whether that one waits for more, found a violation, refused a frame or
   took a Close. Only a Close which the other one did not take may come on top.
   */
  lemma DeliveredFromBytes(y: Account, x: Account)
    requires Delivered(y) && UsedUp(x) && y.cfg == x.cfg && y.fed <= x.fed
    ensures DataOnly(y.delivered) <= DataOnly(x.delivered)
    ensures
      || (y.processed <= x.processed && y.delivered <= x.delivered)
      || (CloseDisputed(x.stop) && y.stop.CloseTaken? && |y.delivered| == |x.delivered| + 1
          && y.delivered == x.delivered + [y.delivered[|x.delivered|]] && y.delivered[|x.delivered|].opcode == CLOSE)
  {
    hide ParseStream, Assemble, FineFrames, Deliveries, CloseLast, Standing, AllFine;
    if |y.processed| > |x.processed| {
      FurtherThan(y, x);
      OneCloseMore(y, x, y.processed[|x.processed|]);
    } else {
      ParsedPart(y.fed, x.fed);
      AssembleGrows(y.processed, x.processed);
      DeliveriesGrow(y.cfg.buffering, Assemble(y.processed).out, Assemble(x.processed).out);
      DataOnlyGrows(y.delivered, x.delivered);
    }
  }

  // -- Where reading stops -----------------------------------------------

  /** Bytes that were used up without a refusal hold nothing to refuse, a Close aside. */
  lemma NothingToRefuse(x: Account, h: PrintableHeader, got: seq<byte>, checked: seq<byte>)
    requires AllFine(x) && NextIn(ParseStream(x.fed), |x.processed|, h, got)
    requires (got == [] ==> h.len == 0) && h.opcode != CLOSE
    ensures Judge(x.cfg, Assemble(x.processed).open, h, got, checked) == Fine
  {
    hide Assemble, JudgeHeader, JudgeContent, ParseStream;
    var p, open := ParseStream(x.fed), Assemble(x.processed).open;
    TailIsShort(x.fed);
    RefusalStays(x.cfg, open, h, got, p.tail.got);
    CheckedIsForClose(x.cfg, open, h, got, checked);
  }

  lemma SameProcessed(y: Account, x: Account)
    requires UsedUp(y) && UsedUp(x) && y.cfg == x.cfg && y.fed == x.fed
    requires y.stop.Violated? || (y.stop.Refused? && y.stop.h.opcode != CLOSE)
    ensures y.processed == x.processed
  {
    hide ParseStream, Assemble, FineFrames, Deliveries, CloseLast, Standing, AllFine;
    if |y.processed| > |x.processed| {
      FurtherThan(y, x);
    } else if |x.processed| > |y.processed| {
      FurtherThan(x, y);
    }
  }

  /** With the same bytes, a violation, and a refusal of a frame that is no Close, come to both. */
  lemma SameBytesSameStop(y: Account, x: Account)
    requires UsedUp(y) && UsedUp(x) && y.cfg == x.cfg && y.fed == x.fed
    ensures y.stop.Violated? ==> x.stop.Violated? && x.processed == y.processed
    ensures y.stop.Refused? && y.stop.h.opcode != CLOSE ==>
      x.stop.Refused? && x.stop.h == y.stop.h && x.stop.verdict == y.stop.verdict && x.processed == y.processed
  {
    hide ParseStream, Assemble, FineFrames, Deliveries, Judge, JudgeHeader, Pieces, CheckedOver;
    hide Utf8.WellFormed, TailFine;
    if y.stop.Violated? {
      SameProcessed(y, x);
    } else if y.stop.Refused? && y.stop.h.opcode != CLOSE {
      SameProcessed(y, x);
      var p, k, h, got := ParseStream(y.fed), |y.processed|, y.stop.h, y.stop.got;
      if x.idle || x.stop.Failed? {
        NothingToRefuse(x, h, got, y.stop.checked);
      } else if x.stop.Refused? {
        SameFrame(p, k, h, got, x.stop.h, x.stop.got);
        RefusalsAgree(y.cfg, Assemble(y.processed).open, h, got, y.stop.checked, x.stop.got, x.stop.checked);
      }
    }
  }

  /** If a Close was taken, or passed unanswered, and refused elsewhere, both contexts speak of one Close. */
  lemma SameClose(y: Account, x: Account)
    requires UsedUp(y) && UsedUp(x) && y.cfg == x.cfg && y.fed == x.fed
    requires (y.stop.CloseTaken? || y.stop.CloseUnanswered?) && CloseRefused(x.stop)
    ensures x.stop.h.fin && |y.stop.payload| == x.stop.h.len && x.stop.got <= y.stop.payload
    ensures CloseChecked(x.stop.h, y.stop.payload, y.stop.pieces)
  {
    hide ParseStream, Assemble, FineFrames, Deliveries, Judge, JudgeHeader, Pieces, CheckedOver;
    hide Utf8.WellFormed, TailFine;
    var p, k := ParseStream(x.fed), |x.processed|;
    TailIsShort(x.fed);
    if |x.processed| > |y.processed| {
      FurtherThan(x, y);
    } else if |y.processed| > |x.processed| {
      FurtherThan(y, x);
    } else {
      assert k > 0 ==> y.processed[k - 1] == x.processed[k - 1];
      SameFrame(p, k, x.stop.h, x.stop.got, y.stop.h, y.stop.payload);
      ParsedFaithful(x.fed, k);
    }
  }

  /**
   All that the cutting of the input can change is the fate of a Close: if one context took it, or would have but for
   its own Close, and another one, fed the same bytes, refused its text, then it came in pieces to one of them.
   */
  lemma SplitDecidesClose(y: Account, x: Account)
    requires UsedUp(y) && UsedUp(x) && y.cfg == x.cfg && y.fed == x.fed
    requires (y.stop.CloseTaken? || y.stop.CloseUnanswered?) && CloseRefused(x.stop)
    ensures |y.stop.pieces| >= 2 || |x.stop.pieces| >= 2
  {
    SameClose(y, x);
    hide ParseStream, Assemble, Delivered, Judge, JudgeHeader, JudgeContent, CloseChecked, Pieces, AllFine, NextIn;
    CloseVerdict(x.cfg, Assemble(x.processed).open, x.stop.h, x.stop.got, x.stop.checked);
    if |y.stop.pieces| <= 1 && |x.stop.pieces| <= 1 {
      WholeReasonFine(x.stop.h, y.stop.payload, y.stop.pieces, x.stop.got, x.stop.checked, x.stop.pieces);
    }
  }

  // -- Contexts ----------------------------------------------------------

  /** b has processed all the frames in what it took in, and waits for more. */
  ghost predicate Waiting(b: EventContext)
    reads b, b.frameIn, b.frameIn.ibuf, b.frameIn.pipe
  {
    && b.ValidRecv() && b.readEnabled
    && b.frameIn.ibufmark <= b.frameIn.ibuflimit <= b.frameIn.ibuf.Length
    && ParseStream(b.frameIn.Fed()) == Parse(b.processed, b.frameIn.PendingTail())
  }

  ghost function AccountOf(b: EventContext): Account
    reads b, b.frameIn, b.frameIn.ibuf, b.frameIn.pipe
    requires b.frameIn.pipe.taken <= |b.frameIn.pipe.bytes|
  {
    Account(b.cfg, b.frameIn.Fed(), b.processed, b.delivered, b.stop, Waiting(b))
  }

  /** Every context's account is true. */
  lemma AccountsAreTrue(b: EventContext)
    requires b.ValidRecv()
    ensures b.frameIn.pipe.taken <= |b.frameIn.pipe.bytes|
    ensures Delivered(AccountOf(b)) && Standing(AccountOf(b))
    ensures Waiting(b) || !b.stop.Running? ==> UsedUp(AccountOf(b))
  {
    hide Assemble, FineFrames, Deliveries, Pings, ParseStream, NextIn, Mirrors, TailFine, RepliesOk, CloseLast;
    hide Waiting;
    hide FrameIn.FrameReceiver.Valid, EventContext.ChunksFine, Pieces, CloseChecked, JudgeHeader, Judge;
    if Waiting(b) {
      WaitingFine(b);
    }
  }

  lemma WaitingFine(b: EventContext)
    requires Waiting(b)
    ensures b.frameIn.pipe.taken <= |b.frameIn.pipe.bytes| && AllFine(AccountOf(b))
  {
    b.PendingFine();
    hide History, EventContext.StopJustified, Mirrors, TailFine, ParseStream;
    hide FrameIn.FrameReceiver.PendingTail, RepliesOk, CloseLast;
    hide FrameIn.FrameReceiver.Valid, EventContext.ChunksFine;
  }
}
