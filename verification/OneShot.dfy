/** The receiver as a function of the bytes: what a context delivers, and where it stops, read off the whole input. */
module OneShot {
  import opened Bytes
  import opened Headers
  import opened Stream
  import opened Protocol
  import opened RecvModel
  import opened Peer
  import opened Chunking
  import Utf8

  /** What becomes of the input behind the frames that are taken. */
  datatype Ending =
    | More                                      // all is fine, as far as it came
    | Unparsable                                // no frame can follow
    | Refusal(h: Header, verdict: Verdict)      // the next frame is refused
    | AtClose(h: Header, got: seq<byte>)        // the next frame is a Close with an acceptable header

  datatype Outcome = Outcome(processed: seq<Frame>, delivered: seq<Delivery>, ending: Ending)

  /** A frame that is no Close and passes every test, after those before it. */
  ghost predicate Good(cfg: Config, before: seq<Frame>, f: Frame) {
    f.h.opcode != CLOSE && Judge(cfg, Assemble(before).open, f.h, f.payload, []) == Fine
  }

  /** How many of the frames are taken, given that the first k are. */
  ghost function Taken(cfg: Config, fs: seq<Frame>, k: nat): (n: nat)
    requires k <= |fs|
    ensures k <= n <= |fs|
    decreases |fs| - k
  {
    if k < |fs| && Good(cfg, fs[..k], fs[k]) then Taken(cfg, fs, k + 1) else k
  }

  ghost function Fate(cfg: Config, open: Option<Msg>, h: Header, got: seq<byte>): Ending {
    if h.opcode == CLOSE && JudgeHeader(cfg, open, h) == Fine then AtClose(h, got)
    else if Judge(cfg, open, h, got, []) == Fine then More
    else Refusal(h, Judge(cfg, open, h, got, []))
  }

  /** The frame behind the first k decides; of one that is not complete, if any of its payload has come. */
  ghost function EndingAt(cfg: Config, p: Parse, k: nat): Ending
    requires k <= |p.frames|
  {
    var open := Assemble(p.frames[..k]).open;
    if k < |p.frames| then Fate(cfg, open, p.frames[k].h, p.frames[k].payload)
    else
      match p.tail
      case Violation => Unparsable
      case InHeader(_) => More
      case InPayload(h, got) => if got == [] then More else Fate(cfg, open, h, got)
  }

  /** Receiving, over the one-shot parse of the bytes. */
  ghost function Receive(cfg: Config, bytes: seq<byte>): Outcome {
    var p := ParseStream(bytes);
    var k := Taken(cfg, p.frames, 0);
    Outcome(p.frames[..k], Deliveries(cfg.buffering, Assemble(p.frames[..k]).out), EndingAt(cfg, p, k))
  }

  /** The account of a context that took in all of it is the outcome; a Close depends on how it was cut up. */
  ghost predicate Agrees(x: Account, o: Outcome) {
    && (!x.stop.CloseTaken? ==> x.processed == o.processed && x.delivered == o.delivered)
    && match o.ending
       case More => x.idle || x.stop.Failed?
       case Unparsable => x.stop.Violated?
       case Refusal(h, verdict) => x.stop.Refused? && x.stop.h == h && x.stop.verdict == verdict
       case AtClose(h, got) => AgreesOnClose(x, o, h, got)
  }

  /** A Close is answered, met when none can be queued any more, refused for its content, or not complete yet. */
  ghost predicate AgreesOnClose(x: Account, o: Outcome, h: Header, got: seq<byte>) {
    match x.stop
    case CloseTaken(payload, pieces) =>
      && payload == got && |got| == h.len && Printable(h) && (|got| >= 2 ==> ValidStatus(StatusOf(got)))
      && x.processed == o.processed + [Received(h, got)]
      && x.delivered == o.delivered + [Deliver(x.cfg.buffering, Msg(CLOSE, got))]
      && (|pieces| <= 1 ==> Utf8.WellFormed(TextPart(CLOSE, got)))
    case CloseUnanswered(h', payload, pieces) =>
      && h' == h && payload == got && |got| == h.len && (|got| >= 2 ==> ValidStatus(StatusOf(got)))
      && (|pieces| <= 1 ==> Utf8.WellFormed(TextPart(CLOSE, got)))
    case Refused(verdict, h', part, _, pieces) =>
      && h' == h && part <= got
      && (if verdict == Refuse(INVALID_DATA) then |pieces| <= 1 ==> HopelessText(TextPart(CLOSE, part), |part| == h.len)
          else verdict == Refuse(PROTOCOL_ERROR) && |part| == h.len && |got| >= 2 && !ValidStatus(StatusOf(got)))
    case Failed(_) => |got| < h.len
    case Running => x.idle && |got| < h.len
    case Violated => false
  }

  /** Text that is ill-formed, or cannot be completed. */
  ghost predicate HopelessText(text: seq<byte>, complete: bool) {
    !Utf8.Viable(text) || (complete && !Utf8.WellFormed(text))
  }

  // -- The frames taken --------------------------------------------------

  lemma {:induction false} TakenIs(cfg: Config, fs: seq<Frame>, k: nat, n: nat)
    requires k <= n <= |fs| && forall i | k <= i < n :: Good(cfg, fs[..i], fs[i])
    requires n < |fs| ==> !Good(cfg, fs[..n], fs[n])
    ensures Taken(cfg, fs, k) == n
    decreases n - k
  {
    hide Good;
    if k < n {
      TakenIs(cfg, fs, k + 1, n);
    }
  }

  /** The frames a context processed before it met a Close. */
  function InFront(x: Account): seq<Frame> {
    if x.stop.CloseTaken? && x.processed != [] then x.processed[..|x.processed| - 1] else x.processed
  }

  lemma FrontIsGood(x: Account, i: nat)
    requires Delivered(x) && i < |InFront(x)|
    ensures Good(x.cfg, InFront(x)[..i], InFront(x)[i])
  {
    hide ParseStream, Assemble, Deliveries, JudgeHeader, JudgeContent;
    assert FineFrame(x.cfg, Assemble(x.processed[..i]).open, x.processed[i]);
    assert InFront(x)[..i] == x.processed[..i];
  }

  /** Where a frame stops a context, it is not good. */
  lemma StoppedIsNotGood(cfg: Config, before: seq<Frame>, f: Frame, h: Header, got: seq<byte>, checked: seq<byte>)
    requires f.h == h && got <= f.payload && |f.payload| == h.len
    requires Judge(cfg, Assemble(before).open, h, got, checked) != Fine
    ensures !Good(cfg, before, f)
  {
    hide Assemble, Judge;
    if Good(cfg, before, f) {
      JudgePartial(cfg, Assemble(before).open, h, got, f.payload);
      CheckedIsForClose(cfg, Assemble(before).open, h, got, checked);
    }
  }

  lemma NextIsNotGood(x: Account)
    requires UsedUp(x)
    ensures InFront(x) <= ParseStream(x.fed).frames
    ensures var fs, k := ParseStream(x.fed).frames, |InFront(x)|;
      k < |fs| ==> !Good(x.cfg, fs[..k], fs[k])
  {
    hide ParseStream, Assemble, Deliveries, FineFrames, Judge, JudgeHeader, Pieces, CheckedOver;
    hide Utf8.WellFormed, TailFine;
    var fs, k := ParseStream(x.fed).frames, |InFront(x)|;
    if k < |fs| {
      ParsedFaithful(x.fed, k);
      assert fs[..k] == InFront(x);
      if x.stop.Refused? {
        StoppedIsNotGood(x.cfg, fs[..k], fs[k], x.stop.h, x.stop.got, x.stop.checked);
      }
    }
  }

  lemma FrontIsTaken(x: Account)
    requires UsedUp(x)
    ensures Receive(x.cfg, x.fed).processed == InFront(x) && InFront(x) <= ParseStream(x.fed).frames
    ensures Taken(x.cfg, ParseStream(x.fed).frames, 0) == |InFront(x)|
  {
    hide ParseStream, Good, Assemble, Deliveries, Standing, Delivered, AllFine, EndingAt, InFront;
    var fs := ParseStream(x.fed).frames;
    NextIsNotGood(x);
    forall i | 0 <= i < |InFront(x)|
      ensures Good(x.cfg, fs[..i], fs[i])
    {
      FrontIsGood(x, i);
      assert fs[..i] == InFront(x)[..i];
    }
    TakenIs(x.cfg, fs, 0, |InFront(x)|);
  }

  // -- The ending --------------------------------------------------------

  /** Nothing was refused: more may come, or a Close is under way. */
  lemma FineEnding(x: Account)
    requires AllFine(x)
    ensures var p := ParseStream(x.fed);
      var ending := EndingAt(x.cfg, p, |x.processed|);
      ending.More? || (ending.AtClose? && |ending.got| < ending.h.len)
  {
    hide ParseStream, Assemble, JudgeHeader, JudgeContent;
    TailIsShort(x.fed);
    assert x.processed[..|x.processed|] == x.processed;
  }

  /** A frame refused in one place is refused for the same reason by all that came of it, a Close aside. */
  lemma FateOfRefused(cfg: Config, open: Option<Msg>, h: Header, got: seq<byte>, checked: seq<byte>, whole: seq<byte>)
    requires got <= whole && |whole| <= h.len && Judge(cfg, open, h, got, checked) != Fine
    ensures Fate(cfg, open, h, whole) ==
      if h.opcode == CLOSE && JudgeHeader(cfg, open, h) == Fine then AtClose(h, whole)
      else Refusal(h, Judge(cfg, open, h, got, checked))
  {
    hide JudgeHeader, JudgeContent;
    if h.opcode != CLOSE {
      CheckedIsForClose(cfg, open, h, got, checked);
      if Judge(cfg, open, h, whole, []) == Fine {
        if |whole| == h.len {
          JudgePartial(cfg, open, h, got, whole);
        } else {
          RefusalStays(cfg, open, h, got, whole);
        }
      }
      RefusalsAgree(cfg, open, h, got, checked, whole, []);
    }
  }

  /** What may be wrong with a Close whose header is acceptable. */
  lemma CloseIsRefused(open: Option<Msg>, h: Header, got: seq<byte>, checked: seq<byte>, pieces: seq<seq<byte>>)
    requires h.opcode == CLOSE && Pieces(h, got, checked, pieces) && JudgeContent(open, h, got, checked) != Fine
    requires |got| == h.len ==> h.fin
    ensures var verdict := JudgeContent(open, h, got, checked);
      if verdict == Refuse(INVALID_DATA) then |pieces| <= 1 ==> HopelessText(TextPart(CLOSE, got), |got| == h.len)
      else verdict == Refuse(PROTOCOL_ERROR) && |got| == h.len && |got| >= 2 && !ValidStatus(StatusOf(got))
  {
    hide Utf8.Viable, Utf8.WellFormed, Pieces, StatusOf, TextPart, CheckedOver;
    if |pieces| <= 1 {
      PiecesChecked(h, got, checked, pieces);
      OnePiece(h, got, pieces);
    }
  }

  lemma PiecesChecked(h: Header, got: seq<byte>, checked: seq<byte>, pieces: seq<seq<byte>>)
    requires Pieces(h, got, checked, pieces)
    ensures checked == CheckedOver(h, pieces)
  {
  }

  /** The frame behind the first k, as far as it came. */
  lemma NextDecides(cfg: Config, bytes: seq<byte>, k: nat, h: PrintableHeader, got: seq<byte>)
    returns (whole: seq<byte>)
    requires NextIn(ParseStream(bytes), k, h, got) && (got == [] ==> h.len == 0)
    ensures k <= |ParseStream(bytes).frames| && got <= whole && |whole| <= h.len
    ensures var p := ParseStream(bytes);
      EndingAt(cfg, p, k) == Fate(cfg, Assemble(p.frames[..k]).open, h, whole)
    ensures |got| == h.len ==> whole == got && k < |ParseStream(bytes).frames| && WellFormed(h)
    ensures var fs := ParseStream(bytes).frames;
      k < |fs| ==> fs[k] == Received(h, whole)
  {
    hide ParseStream, Assemble, Fate;
    var p := ParseStream(bytes);
    TailIsShort(bytes);
    if k < |p.frames| {
      ParsedFaithful(bytes, k);
      whole := p.frames[k].payload;
    } else {
      whole := p.tail.got;
    }
  }

  lemma RefusedEnding(x: Account)
    requires UsedUp(x) && x.stop.Refused?
    ensures Agrees(x, Receive(x.cfg, x.fed))
  {
    hide ParseStream, Assemble, FineFrames, Deliveries, Judge, JudgeHeader, JudgeContent, Pieces, HopelessText;
    hide EndingAt, Fate, AllFine, CloseLast, Taken;
    FrontIsTaken(x);
    var p, k, h, got := ParseStream(x.fed), |x.processed|, x.stop.h, x.stop.got;
    var open := Assemble(x.processed).open;
    assert p.frames[..k] == x.processed;
    var whole := NextDecides(x.cfg, x.fed, k, h, got);
    FateOfRefused(x.cfg, open, h, got, x.stop.checked, whole);
    if h.opcode == CLOSE && JudgeHeader(x.cfg, open, h) == Fine {
      JudgeWhole(x.cfg, open, h, got, x.stop.checked);
      CloseIsRefused(open, h, got, x.stop.checked, x.stop.pieces);
    }
  }

  /** No frame stopped the context. */
  lemma QuietEnding(x: Account)
    requires UsedUp(x) && (x.stop.Running? || x.stop.Failed? || x.stop.Violated?)
    ensures Agrees(x, Receive(x.cfg, x.fed))
  {
    hide ParseStream, Assemble, FineFrames, Deliveries, Judge, Fate, CloseLast, Taken;
    FrontIsTaken(x);
    if !x.stop.Violated? {
      FineEnding(x);
    }
  }

  lemma FineCloseFate(cfg: Config, open: Option<Msg>, f: Frame)
    requires FineFrame(cfg, open, f) && f.h.opcode == CLOSE
    ensures Fate(cfg, open, f.h, f.payload) == AtClose(f.h, f.payload)
    ensures |f.payload| >= 2 ==> ValidStatus(StatusOf(f.payload))
  {
    hide JudgeHeader, JudgeContent;
  }

  /** A Close that was met in one piece has a well-formed reason. */
  lemma MetInOnePiece(h: Header, payload: seq<byte>, pieces: seq<seq<byte>>)
    requires CloseChecked(h, payload, pieces)
    ensures |pieces| <= 1 ==> Utf8.WellFormed(TextPart(CLOSE, payload))
  {
    hide Utf8.WellFormed, TextPart, CheckedOver;
    if |pieces| <= 1 {
      OnePiece(h, payload, pieces);
    }
  }

  lemma UnansweredEnding(x: Account)
    requires UsedUp(x) && x.stop.CloseUnanswered?
    ensures Agrees(x, Receive(x.cfg, x.fed))
  {
    hide ParseStream, Assemble, FineFrame, FineFrames, Deliveries, Pieces, CheckedOver, StatusOf, TextPart;
    hide EndingAt, Fate, AllFine, CloseLast, Taken, Utf8.WellFormed;
    FrontIsTaken(x);
    var p, h, payload := ParseStream(x.fed), x.stop.h, x.stop.payload;
    assert p.frames[..|x.processed|] == x.processed;
    var whole := NextDecides(x.cfg, x.fed, |x.processed|, h, payload);
    FineCloseFate(x.cfg, Assemble(x.processed).open, Received(h, payload));
    MetInOnePiece(h, payload, x.stop.pieces);
  }

  /** The Close that was taken is the last frame processed, and was delivered. */
  lemma CloseOnTop(x: Account)
    requires Delivered(x) && x.stop.CloseTaken? && x.processed != []
    requires x.processed[|x.processed| - 1].h.opcode == CLOSE
    ensures var q, f := InFront(x), x.processed[|x.processed| - 1];
      && x.processed == q + [f] && Faithful(f) && FineFrame(x.cfg, Assemble(q).open, f)
      && x.delivered == Deliveries(x.cfg.buffering, Assemble(q).out) + [Deliver(x.cfg.buffering, Msg(CLOSE, f.payload))]
  {
    hide ParseStream, Assemble, FineFrame, Deliveries, Deliver, CloseLast;
    var q, f := InFront(x), x.processed[|x.processed| - 1];
    assert x.processed == q + [f] && x.processed[..|q|] == q;
    ParsedFaithful(x.fed, |q|);
    AssembleSnoc(q, f);
    DeliveriesSnoc(x.cfg.buffering, Assemble(q).out, Msg(CLOSE, f.payload));
  }

  lemma TakenEnding(x: Account)
    requires UsedUp(x) && x.stop.CloseTaken?
    ensures Agrees(x, Receive(x.cfg, x.fed))
  {
    hide ParseStream, Assemble, FineFrame, FineFrames, Deliveries, Deliver, Pieces, CheckedOver, StatusOf, TextPart;
    hide Fate, AllFine, CloseLast, Taken, Utf8.WellFormed;
    FrontIsTaken(x);
    CloseOnTop(x);
    var p, q, f := ParseStream(x.fed), InFront(x), x.processed[|x.processed| - 1];
    assert p.frames[..|q|] == q && p.frames[|q|] == f;
    FineCloseFate(x.cfg, Assemble(q).open, f);
    MetInOnePiece(f.h, f.payload, x.stop.pieces);
  }

  /**
   The receiver is a function of the bytes: a context that used up its input, or stopped reading for a reason of its
   own, processed and delivered what one pass over the whole input gives, and stopped where that stops, with the same
   verdict; only the fate of a Close is left to how it was cut up and to what was queued before.
   */
  lemma ReceivedInOneShot(x: Account)
    requires UsedUp(x)
    ensures Agrees(x, Receive(x.cfg, x.fed))
  {
    hide ParseStream, Assemble, FineFrames, Deliveries, Judge, AllFine, CloseLast, Taken, AgreesOnClose;
    match x.stop
    case Refused(_, _, _, _, _) => RefusedEnding(x);
    case CloseUnanswered(_, _, _) => UnansweredEnding(x);
    case CloseTaken(_, _) => TakenEnding(x);
    case _ => QuietEnding(x);
  }


  // -- Text messages -----------------------------------------------------

  /** Frame k completes a text message of an input that is fine up to there. */
  ghost predicate EndsText(cfg: Config, fs: seq<Frame>, k: nat) {
    && k < |fs| && (forall i | 0 <= i < k :: Good(cfg, fs[..i], fs[i]))
    && var open, h := Assemble(fs[..k]).open, fs[k].h;
    JudgeHeader(cfg, open, h) == Fine && h.fin && h.opcode != CLOSE && MessageOpcode(open, h) == TEXT
  }

  function TextAt(fs: seq<Frame>, k: nat): Msg
    requires k < |fs|
  {
    Completed(Assemble(fs[..k]).open, fs[k].h, fs[k].payload)
  }

  lemma TextVerdictAt(cfg: Config, fs: seq<Frame>, k: nat)
    requires EndsText(cfg, fs, k) && Faithful(fs[k])
    ensures Utf8.WellFormed(TextAt(fs, k).payload) ==> Good(cfg, fs[..k], fs[k])
    ensures !Utf8.WellFormed(TextAt(fs, k).payload) ==>
      Judge(cfg, Assemble(fs[..k]).open, fs[k].h, fs[k].payload, []) == Refuse(INVALID_DATA)
  {
    hide Assemble, JudgeHeader, Utf8.WellFormed, Utf8.Viable;
    if Utf8.WellFormed(TextAt(fs, k).payload) {
      WellFormedIsViable(TextAt(fs, k).payload);
    }
  }

  lemma TextDelivered(x: Account, k: nat)
    requires Delivered(x) && k < |x.processed|
    requires var f := x.processed[k]; Faithful(f) && f.h.fin
    ensures var n := |Assemble(x.processed[..k]).out|;
      n < |x.delivered| && x.delivered[n] == Deliver(x.cfg.buffering, TextAt(x.processed, k))
  {
    hide ParseStream, Assemble, FineFrames, CloseLast, Deliver, Feed, Completed;
    var fs, f := x.processed, x.processed[k];
    AssembleGrows(fs[..k], fs);
    AssembleGrows(fs[..k + 1], fs);
    assert fs[..k + 1] == fs[..k] + [f];
    AssembleSnoc(fs[..k], f);
    FedIsInTurn(Assemble(fs[..k]), f);
    FeedReceived(Assemble(fs[..k]), f.h, f.payload);
  }

  lemma {:induction false} TakenPast(cfg: Config, fs: seq<Frame>, k: nat, n: nat)
    requires k <= n < |fs| && forall i | k <= i <= n :: Good(cfg, fs[..i], fs[i])
    ensures Taken(cfg, fs, k) > n
    decreases n - k
  {
    hide Good;
    if k < n {
      TakenPast(cfg, fs, k + 1, n);
    }
  }

  lemma NotGood(cfg: Config, fs: seq<Frame>, k: nat)
    requires k < |fs| && Judge(cfg, Assemble(fs[..k]).open, fs[k].h, fs[k].payload, []) != Fine
    ensures !Good(cfg, fs[..k], fs[k])
  {
    hide Judge, Assemble;
  }

  lemma FedIsInTurn(a: Asm, f: Frame)
    requires Feed(a, f).legal
    ensures a.legal && InTurn(a.open, f.h.opcode)
  {
  }

  /** A text message of the input is delivered when it is well-formed; if not, reading ends with 1007. */
  lemma TextDecides(x: Account, k: nat)
    requires UsedUp(x) && EndsText(x.cfg, ParseStream(x.fed).frames, k)
    ensures var fs := ParseStream(x.fed).frames;
      var n := |Assemble(fs[..k]).out|;
      if Utf8.WellFormed(TextAt(fs, k).payload)
        then n < |x.delivered| && x.delivered[n] == Deliver(x.cfg.buffering, TextAt(fs, k))
        else |x.delivered| == n && x.stop.Refused? && x.stop.verdict == Refuse(INVALID_DATA) && x.stop.h == fs[k].h
  {
    hide ParseStream, Assemble, FineFrames, CloseLast, Deliver, Completed, Judge, JudgeHeader, Good, Standing;
    hide AllFine, Utf8.WellFormed, AgreesOnClose;
    var fs := ParseStream(x.fed).frames;
    ParsedFaithful(x.fed, k);
    TextVerdictAt(x.cfg, fs, k);
    ReceivedInOneShot(x);
    FrontIsTaken(x);
    if Utf8.WellFormed(TextAt(fs, k).payload) {
      TakenPast(x.cfg, fs, 0, k);
      assert fs[..k] == x.processed[..k] && fs[k] == x.processed[k];
      TextDelivered(x, k);
    } else {
      hide Good;
      NotGood(x.cfg, fs, k);
      TakenIs(x.cfg, fs, 0, k);
    }
  }
}
