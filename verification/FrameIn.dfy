/** The resumable frame parser over a sliding buffer. */
module FrameIn {
  import opened Bytes
  import opened Headers
  import opened Stream
  import opened Transport

  const IBUF_SIZE := 4096

  datatype IState = RECV_HEADER1 | RECV_EXT_PAYLOADLEN | RECV_MASKKEY | RECV_PAYLOAD

  datatype Code = OK | WANT_READ | PROTO

  /** What one call reports: the frame's header fields and the payload bytes it brought. */
  datatype Iocb = Iocb(fin: bool, rsv: nat, opcode: nat, mask: bool, payloadLength: nat, data: seq<byte>)

  /** The frame being received: nothing of its payload yet known, or its header and the payload so far. */
  datatype Incoming = NoFrame | Body(h: PrintableHeader, got: seq<byte>)

  function GotSoFar(c: Incoming): seq<byte> {
    match c case NoFrame => [] case Body(h, got) => got
  }

  predicate Describes(io: Iocb, h: Header) {
    && io.fin == h.fin && io.rsv == h.rsv && io.opcode == h.opcode
    && io.mask == h.key.Some? && io.payloadLength == h.len
  }

  /** b is the frame of before, or a new one, with the data of io added. */
  predicate Grows(before: Incoming, io: Iocb, b: Incoming) {
    && b.Body? && WellFormed(b.h) && Describes(io, b.h)
    && (before.Body? ==> b.h == before.h)
    && b.got == GotSoFar(before) + io.data && |b.got| <= b.h.len
  }

  /** A complete payload makes a received frame; otherwise the frame stays open and did grow. */
  predicate Settles(b: Incoming, io: Iocb, frames: seq<Frame>, frames': seq<Frame>, cur': Incoming)
    requires b.Body?
  {
    if |b.got| == b.h.len then frames' == frames + [Received(b.h, b.got)] && cur' == NoFrame
    else frames' == frames && cur' == b && io.data != []
  }

  lemma GrowsBy(before: Incoming, io: Iocb, b: Incoming)
    requires Grows(before, io, b)
    ensures b.Body? && WellFormed(b.h) && b.got == GotSoFar(before) + io.data && |b.got| <= b.h.len
    ensures io.opcode == b.h.opcode
  {
  }

  lemma SettlesGrows(b: Incoming, io: Iocb, frames: seq<Frame>, frames': seq<Frame>, cur': Incoming)
    requires b.Body? && Settles(b, io, frames, frames', cur')
    ensures frames <= frames'
  {
  }

  // -- Where a stream stands after whole frames --------------------------

  lemma StreamViolation(frames: seq<Frame>, rest: seq<byte>)
    requires AllFaithful(frames) && ParseHeader(rest) == Malformed
    ensures ParseStream(StreamBytes(frames) + rest) == Parse(frames, Violation)
  {
    hide AllFaithful, StreamBytes, ParseHeader;
    ParsePrinted(frames, rest);
    assert frames + [] == frames;
  }

  lemma StreamInHeader(frames: seq<Frame>, rest: seq<byte>)
    requires AllFaithful(frames) && ParseHeader(rest) == NeedMore
    ensures ParseStream(StreamBytes(frames) + rest) == Parse(frames, InHeader(rest))
  {
    hide AllFaithful, StreamBytes, ParseHeader;
    ParsePrinted(frames, rest);
    assert frames + [] == frames;
  }

  lemma StreamInPayload(frames: seq<Frame>, h: PrintableHeader, got: seq<byte>)
    requires AllFaithful(frames) && WellFormed(h) && |got| < h.len
    ensures ParseStream(StreamBytes(frames) + (EncodeHeader(h) + Mask(h.key, got, 0))) ==
      Parse(frames, InPayload(h, got))
  {
    hide AllFaithful, StreamBytes, ParseHeader, EncodeHeader, Mask;
    var n, rest := |EncodeHeader(h)|, EncodeHeader(h) + Mask(h.key, got, 0);
    ParsePrinted(frames, rest);
    DecodeEncode(h, Mask(h.key, got, 0));
    assert rest[n..] == Mask(h.key, got, 0);
    MaskCancels(h.key, got, 0);
    assert frames + [] == frames;
  }

  // -- Header states -----------------------------------------------------

  /** The header fields the first two bytes fix. */
  predicate Start(hb: seq<byte>, fin: bool, rsv: nat, opcode: nat, imask: bool) {
    && |hb| >= 2 && !BadStart(hb[0], hb[1])
    && fin == (hb[0] >= 128) && rsv == hb[0] / 16 % 8 && opcode == hb[0] % 16 && imask == (hb[1] >= 128)
  }

  /** The header bytes up to the key are all in and announce len. */
  predicate PrefixRead(hb: seq<byte>, len: nat) {
    |hb| >= 2 && |hb| == 2 + ExtSize(hb[1] % 128) && len == LengthOf(hb[1], hb[2..]) && ExtLegal(hb[1] % 128, len)
  }

  lemma PrefixNeedsKey(hb: seq<byte>, fin: bool, rsv: nat, opcode: nat, len: nat, more: seq<byte>)
    requires Start(hb, fin, rsv, opcode, true) && PrefixRead(hb, len)
    ensures |more| < 4 ==> ParseHeader(hb + more) == NeedMore
    ensures |more| >= 4 ==> ParseHeader(hb + more) == Got(Header(fin, rsv, opcode, Some(more[..4]), len), |hb| + 4)
  {
    var s, e := hb + more, |hb|;
    assert s[2..e] == hb[2..];
    if |more| >= 4 {
      assert s[e..e + 4] == more[..4];
    }
  }

  lemma PrefixIsHeader(hb: seq<byte>, fin: bool, rsv: nat, opcode: nat, len: nat)
    requires Start(hb, fin, rsv, opcode, false) && PrefixRead(hb, len)
    ensures ParseHeader(hb) == Got(Header(fin, rsv, opcode, None, len), |hb|)
  {
    assert hb[2..|hb|] == hb[2..];
  }

  lemma ExtPending(hb: seq<byte>, fin: bool, rsv: nat, opcode: nat, imask: bool, more: seq<byte>)
    requires Start(hb, fin, rsv, opcode, imask) && |hb| == 2 && |more| < ExtSize(hb[1] % 128)
    ensures ParseHeader(hb + more) == NeedMore
  {
  }

  lemma ExtBad(hb: seq<byte>, fin: bool, rsv: nat, opcode: nat, imask: bool, ext: seq<byte>, more: seq<byte>)
    requires Start(hb, fin, rsv, opcode, imask) && |hb| == 2 && |ext| == ExtSize(hb[1] % 128)
    requires !ExtLegal(hb[1] % 128, LengthOf(hb[1], ext))
    ensures ParseHeader((hb + ext) + more) == Malformed
  {
    assert ((hb + ext) + more)[2..2 + |ext|] == ext;
  }

  /** A parsed header is the printed form of its fields. */
  lemma HeaderRead(hb: seq<byte>, h: Header)
    requires ParseHeader(hb) == Got(h, |hb|)
    ensures WellFormed(h) && hb == EncodeHeader(h) + Mask(h.key, [], 0)
  {
    hide ParseHeader, EncodeHeader;
    EncodeDecode(hb);
    assert hb[..|hb|] == hb;
    assert EncodeHeader(h) + [] == EncodeHeader(h);
  }

  lemma ShortHeader(more: seq<byte>)
    requires |more| < 2
    ensures ParseHeader([] + more) == NeedMore
  {
  }

  lemma BadHeader(hb: seq<byte>, more: seq<byte>)
    requires |hb| == 2 && BadStart(hb[0], hb[1])
    ensures ParseHeader(hb + more) == Malformed
  {
  }

  lemma FedGrows(bytes: seq<byte>, taken: nat, r: nat, a: seq<byte>, was: seq<byte>, news: seq<byte>)
    requires taken + r <= |bytes| && bytes[..taken] == a + was && news == bytes[taken..taken + r]
    ensures bytes[..taken + r] == a + (was + news)
  {
    assert bytes[..taken + r] == bytes[..taken] + news;
  }

  lemma Unmasked(raw: seq<byte>, off: nat)
    ensures Mask(None, raw, off) == raw
  {
  }

  /** Consuming raw payload bytes is adding their unmasked form to the payload so far. */
  lemma PayloadGrows(sent: seq<byte>, h: PrintableHeader, got: seq<byte>, raw: seq<byte>, rest: seq<byte>)
    ensures (sent + (EncodeHeader(h) + Mask(h.key, got, 0))) + (raw + rest)
         == (sent + (EncodeHeader(h) + Mask(h.key, got + Mask(h.key, raw, |got|), 0))) + rest
  {
    hide EncodeHeader, Mask;
    MaskConcat(h.key, got, Mask(h.key, raw, |got|), 0);
    MaskCancels(h.key, raw, |got|);
  }

  lemma FrameDone(frames: seq<Frame>, h: PrintableHeader, payload: seq<byte>)
    requires AllFaithful(frames) && WellFormed(h) && |payload| == h.len
    ensures AllFaithful(frames + [Received(h, payload)])
    ensures StreamBytes(frames + [Received(h, payload)])
         == StreamBytes(frames) + (EncodeHeader(h) + Mask(h.key, payload, 0))
  {
    hide StreamBytes, EncodeHeader, Mask;
    StreamBytesSnoc(frames, Received(h, payload));
  }

  lemma Regroup(a: seq<byte>, h: seq<byte>, b: seq<byte>, n: nat)
    requires n <= |b|
    ensures (a + h) + b == (a + (h + b[..n])) + b[n..]
  {
  }

  /**
   The frames depend on the bytes alone: of two receivers, one of which has seen a part of what the other has used
   up, the first one has the first frames of the second, however their input was cut up.
   */
  lemma ChunkingIsIrrelevant(a: FrameReceiver, b: FrameReceiver)
    requires a.Valid() && b.Valid() && a.Fed() <= b.Fed()
    requires ParseStream(b.Fed()) == Parse(b.frames, b.PendingTail())
    ensures a.frames <= b.frames
  {
    hide ParseStream, FrameReceiver.Fields, StreamBytes, AllFaithful, FrameReceiver.Head;
    a.FramesParsed();
    var more := b.Fed()[|a.Fed()|..];
    assert a.Fed() + more == b.Fed();
    ParseGrows(a.Fed(), more);
  }

  class FrameReceiver {
    const pipe: Pipe
    const ibuf: array<byte>
    var ibufmark: nat
    var ibuflimit: nat
    var fin: bool
    var rsv: nat
    var opcode: nat
    var ipayloadlen: nat
    var ipayloadoff: nat
    var imask: bool
    var imaskkey: Key
    var istate: IState
    var ireqread: nat
    ghost var frames: seq<Frame>  // frames received completely
    ghost var cur: Incoming
    ghost var hb: seq<byte>       // bytes of an unfinished header already taken from the buffer

    /** All bytes the recv callback ever delivered. */
    ghost function Fed(): seq<byte>
      reads pipe
      requires pipe.taken <= |pipe.bytes|
    {
      pipe.bytes[..pipe.taken]
    }

    ghost function Buffered(): seq<byte>
      reads this, ibuf
      requires ibufmark <= ibuflimit <= ibuf.Length
    {
      ibuf[ibufmark..ibuflimit]
    }

    /** Bytes of the current frame taken from the buffer, as they were on the wire. */
    ghost function Head(): seq<byte>
      reads `cur, `hb
    {
      match cur
      case NoFrame => hb
      case Body(h, got) => EncodeHeader(h) + Mask(h.key, got, 0)
    }

    ghost predicate Fields()
      reads `istate, `ireqread, `hb, `cur, `fin, `rsv, `opcode, `imask, `imaskkey, `ipayloadlen, `ipayloadoff
    {
      && (istate == RECV_PAYLOAD <==> cur.Body?)
      && (istate == RECV_HEADER1 ==> ireqread == 2 && hb == [])
      && (istate == RECV_EXT_PAYLOADLEN ==>
            Start(hb, fin, rsv, opcode, imask) && |hb| == 2 && hb[1] % 128 >= 126 && ireqread == ExtSize(hb[1] % 128))
      && (istate == RECV_MASKKEY ==>
            && Start(hb, fin, rsv, opcode, true) && imask
            && PrefixRead(hb, ipayloadlen) && ireqread == 4 && ipayloadoff == 0)
      && (cur.Body? ==>
            && WellFormed(cur.h) && cur.h.len == ipayloadlen && |cur.got| == ipayloadoff <= ipayloadlen
            && Describes(Iocb(fin, rsv, opcode, imask, ipayloadlen, []), cur.h)
            && (imask ==> cur.h.key == Some(imaskkey)))
    }

    ghost predicate Coupled()
      reads this, ibuf, pipe
    {
      && ibuf.Length == IBUF_SIZE && ibufmark <= ibuflimit <= IBUF_SIZE
      && pipe.taken <= |pipe.bytes|
      && AllFaithful(frames) && Fields()
      && Fed() == (StreamBytes(frames) + Head()) + Buffered()
    }

    /** Between calls a frame whose header is known still misses payload. */
    ghost predicate Valid()
      reads this, ibuf, pipe
    {
      Coupled() && (cur.Body? ==> ipayloadoff < ipayloadlen)
    }

    /** Input not yet consumed: in the buffer, or still to be delivered. */
    ghost function Unread(): nat
      reads this, pipe
      requires ibufmark <= ibuflimit && pipe.taken <= |pipe.bytes|
    {
      ibuflimit - ibufmark + |pipe.bytes| - pipe.taken
    }

    /** How the one-shot parser sees what is left over when the input ran out. */
    ghost function PendingTail(): Tail
      reads this, ibuf
      requires ibufmark <= ibuflimit <= ibuf.Length
    {
      match cur
      case NoFrame => InHeader(hb + Buffered())
      case Body(h, got) => InPayload(h, got)
    }

    /** Outcome of one state of the machine, which takes n bytes when it succeeds. */
    ghost predicate Stepped(frames0: seq<Frame>, unread0: nat, n: nat, code: Code)
      reads this, ibuf, pipe
    {
      && frames == frames0 && pipe.taken <= |pipe.bytes|
      && match code
         case OK => Coupled() && Unread() + n <= unread0
         case WANT_READ => Valid() && Unread() == unread0 && ParseStream(Fed()) == Parse(frames, PendingTail())
         case PROTO => ParseStream(Fed()) == Parse(frames, Violation)
    }

    constructor (pipe: Pipe)
      requires pipe.taken == 0
      ensures Valid() && frames == [] && cur == NoFrame && this.pipe == pipe && fresh(ibuf)
    {
      this.pipe := pipe;
      ibuf := new byte[IBUF_SIZE](_ => 0);
      ibufmark, ibuflimit := 0, 0;
      fin, rsv, opcode, ipayloadlen, ipayloadoff, imask := false, 0, 0, 0, 0, false;
      imaskkey, istate, ireqread := [0, 0, 0, 0], RECV_HEADER1, 2;
      frames, cur, hb := [], NoFrame, [];
    }

    /** wslay_shift_ibuf. */
    method Shift()
      requires Coupled()
      modifies this`ibufmark, this`ibuflimit, ibuf
      ensures Coupled() && Buffered() == old(Buffered()) && ibufmark == 0 && Unread() == old(Unread())
    {
      hide StreamBytes, EncodeHeader, Mask, AllFaithful, Fields;
      var len := ibuflimit - ibufmark;
      forall i | 0 <= i < len {
        ibuf[i] := ibuf[ibufmark + i];
      }
      ibufmark, ibuflimit := 0, len;
    }

    /** The callback writes behind the buffered bytes. */
    method Append() returns (r: int)
      requires Coupled() && ibufmark == 0 && ibuflimit < 8
      modifies this`ibuflimit, ibuf, pipe`taken
      ensures Coupled() && Unread() == old(Unread()) && |Buffered()| == old(|Buffered()|) + (if r > 0 then r else 0)
      ensures pipe.taken == old(pipe.taken) + (if r > 0 then r else 0)
      ensures r <= 0 && pipe.lively ==> pipe.taken == |pipe.bytes|
      ensures old(Buffered()) <= Buffered()
    {
      hide StreamBytes, EncodeHeader, Mask, AllFaithful, Fields;
      ghost var was, fed := ibuf[..ibuflimit], Fed();
      r := pipe.Recv(ibuf, ibuflimit);
      if r > 0 {
        ghost var news := ibuf[ibuflimit..ibuflimit + r];
        FedGrows(pipe.bytes, old(pipe.taken), r, StreamBytes(frames) + Head(), was, news);
        ibuflimit := ibuflimit + r;
        assert ibuf[..ibuflimit] == was + news;
      }
    }

    /** wslay_recv: one call of the callback, which is offered at least 4089 bytes. */
    method Fill() returns (code: Code)
      requires Coupled() && ibuflimit - ibufmark < 8
      modifies this`ibufmark, this`ibuflimit, ibuf, pipe`taken
      ensures Coupled() && code != PROTO && Unread() == old(Unread())
      ensures old(Buffered()) <= Buffered()
      ensures code == OK ==> |Buffered()| > old(|Buffered()|)
      ensures code == WANT_READ ==> Buffered() == old(Buffered())
      ensures pipe.taken >= old(pipe.taken)
      ensures if code == OK then pipe.taken > old(pipe.taken) else pipe.lively ==> pipe.taken == |pipe.bytes|
    {
      hide StreamBytes, EncodeHeader, Mask, AllFaithful, Fields, Coupled;
      if ibufmark != 0 {
        Shift();
      }
      var r := Append();
      return if r > 0 then OK else WANT_READ;
    }

    /** Makes n bytes available, with at most one call of the callback. */
    method Need(n: nat) returns (code: Code)
      requires Coupled() && 1 <= n <= 8
      modifies this`ibufmark, this`ibuflimit, ibuf, pipe`taken
      ensures Coupled() && code != PROTO && Unread() == old(Unread())
      ensures old(Buffered()) <= Buffered()
      ensures code == OK <==> |Buffered()| >= n
      ensures pipe.taken >= old(pipe.taken)
      ensures code == WANT_READ && pipe.lively ==> pipe.taken > old(pipe.taken) || pipe.taken == |pipe.bytes|
    {
      hide StreamBytes, EncodeHeader, Mask, AllFaithful, Fields;
      code := OK;
      if ibuflimit - ibufmark < n {
        code := Fill();
        if code == OK && ibuflimit - ibufmark < n {
          code := WANT_READ;
        }
      }
    }

    /** The next n buffered bytes belong to the header. */
    method Take(n: nat)
      requires Coupled() && n <= |Buffered()| && cur == NoFrame
      modifies this`ibufmark, this`hb
      ensures ibufmark <= ibuflimit && ibufmark == old(ibufmark) + n
      ensures hb == old(hb + Buffered()[..n]) && Buffered() == old(Buffered()[n..])
      ensures Fed() == (StreamBytes(frames) + hb) + Buffered()
    {
      hide StreamBytes, EncodeHeader, Mask, AllFaithful, Fields;
      hb := hb + ibuf[ibufmark..ibufmark + n];
      ibufmark := ibufmark + n;
      Regroup(StreamBytes(frames), old(hb), old(Buffered()), n);
    }

    /** The header is complete: the payload comes next. */
    method StartPayload(ghost h: Header)
      requires ibufmark <= ibuflimit <= ibuf.Length == IBUF_SIZE && pipe.taken <= |pipe.bytes| && AllFaithful(frames)
      requires Fed() == (StreamBytes(frames) + hb) + Buffered()
      requires ParseHeader(hb) == Got(h, |hb|)
      requires Describes(Iocb(fin, rsv, opcode, imask, ipayloadlen, []), h) && (imask ==> h.key == Some(imaskkey))
      requires ipayloadoff == 0
      modifies this`istate, this`cur, this`hb
      ensures Coupled() && istate == RECV_PAYLOAD && GotSoFar(cur) == [] && cur.Body?
    {
      hide StreamBytes, EncodeHeader, Mask, AllFaithful, ParseHeader;
      HeaderRead(hb, h);
      istate := RECV_PAYLOAD;
      cur, hb := Body(h, []), [];
    }

    lemma PendingHeader()
      requires Coupled() && cur == NoFrame && ParseHeader(hb + Buffered()) == NeedMore
      ensures ParseStream(Fed()) == Parse(frames, PendingTail())
    {
      hide StreamBytes, EncodeHeader, Mask, AllFaithful, ParseHeader, ParseStream, Fields;
      assert (StreamBytes(frames) + hb) + Buffered() == StreamBytes(frames) + (hb + Buffered());
      StreamInHeader(frames, hb + Buffered());
    }

    lemma PendingPayload()
      requires Coupled() && cur.Body? && Buffered() == [] && ipayloadoff < ipayloadlen
      ensures ParseStream(Fed()) == Parse(frames, PendingTail())
    {
      hide StreamBytes, EncodeHeader, Mask, AllFaithful, ParseHeader, ParseStream;
      assert (StreamBytes(frames) + Head()) + [] == StreamBytes(frames) + Head();
      StreamInPayload(frames, cur.h, cur.got);
    }

    lemma ViolationHere()
      requires ibufmark <= ibuflimit <= ibuf.Length && pipe.taken <= |pipe.bytes| && AllFaithful(frames)
      requires Fed() == (StreamBytes(frames) + hb) + Buffered()
      requires ParseHeader(hb + Buffered()) == Malformed
      ensures ParseStream(Fed()) == Parse(frames, Violation)
    {
      hide StreamBytes, EncodeHeader, Mask, AllFaithful, ParseHeader, ParseStream;
      assert (StreamBytes(frames) + hb) + Buffered() == StreamBytes(frames) + (hb + Buffered());
      StreamViolation(frames, hb + Buffered());
    }

    /** The frames received are frames of the one-shot parse. */
    lemma FramesParsed()
      requires Valid()
      ensures frames <= ParseStream(Fed()).frames
    {
      hide StreamBytes, EncodeHeader, Mask, AllFaithful, ParseHeader, ParseStream, Fields, Head;
      assert (StreamBytes(frames) + Head()) + Buffered() == StreamBytes(frames) + (Head() + Buffered());
      ParsePrinted(frames, Head() + Buffered());
    }

    /** So is the frame under way, as far as it has come. */
    lemma CurrentParsed()
      requires Valid() && cur.Body?
      ensures NextIn(ParseStream(Fed()), |frames|, cur.h, cur.got)
    {
      hide StreamBytes, EncodeHeader, Mask, AllFaithful, ParseHeader, ParseStream;
      assert (StreamBytes(frames) + Head()) + Buffered() == StreamBytes(frames) + (Head() + Buffered());
      BodyInStream(frames, cur.h, cur.got, Buffered());
    }

    /** The two bytes every header starts with. */
    method ParseHeader1() returns (code: Code)
      requires Valid() && istate == RECV_HEADER1 && |Buffered()| >= 2
      modifies this
      ensures code != WANT_READ && Stepped(old(frames), old(Unread()), 2, code)
      ensures code == OK ==> istate != RECV_HEADER1 && GotSoFar(cur) == []
    {
      hide StreamBytes, EncodeHeader, Mask, AllFaithful, ParseHeader, ParseStream;
      var b0, b1 := ibuf[ibufmark], ibuf[ibufmark + 1];
      Take(2);
      fin, rsv, opcode, imask := b0 >= 128, b0 / 16 % 8, b0 % 16, b1 >= 128;
      assert hb == [b0, b1];
      if BadStart(b0, b1) {
        BadHeader(hb, Buffered());
        ViolationHere();
        return PROTO;
      }
      AfterHeader1(b1);
      return OK;
    }

    /** The second byte tells what comes next. */
    method AfterHeader1(b1: byte)
      requires ibufmark <= ibuflimit <= ibuf.Length == IBUF_SIZE && pipe.taken <= |pipe.bytes| && AllFaithful(frames)
      requires Fed() == (StreamBytes(frames) + hb) + Buffered() && cur == NoFrame
      requires Start(hb, fin, rsv, opcode, imask) && |hb| == 2 && b1 == hb[1]
      modifies this`istate, this`ireqread, this`cur, this`hb, this`ipayloadlen, this`ipayloadoff
      ensures Coupled() && istate != RECV_HEADER1 && GotSoFar(cur) == []
    {
      hide StreamBytes, EncodeHeader, Mask, AllFaithful, ParseHeader;
      if b1 % 128 == 126 {
        istate, ireqread := RECV_EXT_PAYLOADLEN, 2;
      } else if b1 % 128 == 127 {
        istate, ireqread := RECV_EXT_PAYLOADLEN, 8;
      } else {
        ipayloadlen, ipayloadoff := b1 % 128, 0;
        AfterLength();
      }
    }

    /** The length is known: the key is next if there is one, else the payload. */
    method AfterLength()
      requires ibufmark <= ibuflimit <= ibuf.Length == IBUF_SIZE && pipe.taken <= |pipe.bytes| && AllFaithful(frames)
      requires Fed() == (StreamBytes(frames) + hb) + Buffered() && cur == NoFrame
      requires Start(hb, fin, rsv, opcode, imask) && PrefixRead(hb, ipayloadlen) && ipayloadoff == 0
      modifies this`istate, this`ireqread, this`cur, this`hb
      ensures Coupled() && istate == (if imask then RECV_MASKKEY else RECV_PAYLOAD) && GotSoFar(cur) == []
    {
      hide StreamBytes, EncodeHeader, Mask, AllFaithful, ParseHeader;
      if imask {
        istate, ireqread := RECV_MASKKEY, 4;
      } else {
        PrefixIsHeader(hb, fin, rsv, opcode, ipayloadlen);
        StartPayload(Header(fin, rsv, opcode, None, ipayloadlen));
      }
    }

    method RecvHeader1() returns (code: Code)
      requires Valid() && istate == RECV_HEADER1
      modifies this, ibuf, pipe`taken
      ensures Stepped(old(frames), old(Unread()), 2, code)
      ensures code == OK ==> istate != RECV_HEADER1 && GotSoFar(cur) == []
      ensures code == WANT_READ ==> cur == NoFrame
      ensures pipe.taken >= old(pipe.taken)
      ensures code == WANT_READ && pipe.lively ==> pipe.taken > old(pipe.taken) || pipe.taken == |pipe.bytes|
    {
      hide StreamBytes, EncodeHeader, Mask, AllFaithful, ParseHeader, ParseStream;
      code := Need(ireqread);
      if code == OK {
        code := ParseHeader1();
      } else {
        ShortHeader(Buffered());
        PendingHeader();
      }
    }

    /** The extended length: minimal, and below 2^63. */
    method ParseExtPayloadLen() returns (code: Code)
      requires Coupled() && istate == RECV_EXT_PAYLOADLEN && |Buffered()| >= ireqread
      modifies this
      ensures code != WANT_READ && Stepped(old(frames), old(Unread()), 2, code)
      ensures code == OK ==> (istate == RECV_MASKKEY || istate == RECV_PAYLOAD) && GotSoFar(cur) == []
    {
      hide StreamBytes, EncodeHeader, Mask, AllFaithful, ParseHeader, ParseStream, FromBigEndian, BigEndian;
      ghost var start, ext := hb, Buffered()[..ireqread];
      ipayloadoff, ipayloadlen := 0, FromBigEndian(ibuf[ibufmark..ibufmark + ireqread]);
      assert ibuf[ibufmark..ibufmark + ireqread] == ext;
      Take(ireqread);
      if (ireqread == 8 && (ipayloadlen < 0x1_0000 || ipayloadlen >= MAX_PAYLOAD))
        || (ireqread != 8 && ipayloadlen < 126)
      {
        ExtBad(start, fin, rsv, opcode, imask, ext, Buffered());
        ViolationHere();
        return PROTO;
      }
      assert hb[2..] == ext;
      AfterLength();
      return OK;
    }

    method RecvExtPayloadLen() returns (code: Code)
      requires Coupled() && istate == RECV_EXT_PAYLOADLEN
      modifies this, ibuf, pipe`taken
      ensures Stepped(old(frames), old(Unread()), 2, code)
      ensures code == OK ==> (istate == RECV_MASKKEY || istate == RECV_PAYLOAD) && GotSoFar(cur) == []
      ensures code == WANT_READ ==> cur == NoFrame
      ensures pipe.taken >= old(pipe.taken)
      ensures code == WANT_READ && pipe.lively ==> pipe.taken > old(pipe.taken) || pipe.taken == |pipe.bytes|
    {
      hide StreamBytes, EncodeHeader, Mask, AllFaithful, ParseHeader, ParseStream;
      code := Need(ireqread);
      if code == OK {
        code := ParseExtPayloadLen();
      } else {
        ExtPending(hb, fin, rsv, opcode, imask, Buffered());
        PendingHeader();
      }
    }

    /** The masking key. */
    method ParseMaskKey()
      requires Coupled() && istate == RECV_MASKKEY && |Buffered()| >= 4
      modifies this
      ensures Stepped(old(frames), old(Unread()), 4, OK)
      ensures istate == RECV_PAYLOAD && GotSoFar(cur) == []
    {
      hide StreamBytes, EncodeHeader, Mask, AllFaithful, ParseHeader, ParseStream;
      PrefixNeedsKey(hb, fin, rsv, opcode, ipayloadlen, Buffered()[..4]);
      imaskkey := ibuf[ibufmark..ibufmark + 4];
      assert Buffered()[..4][..4] == imaskkey;
      Take(4);
      StartPayload(Header(fin, rsv, opcode, Some(imaskkey), ipayloadlen));
    }

    method RecvMaskKey() returns (code: Code)
      requires Coupled() && istate == RECV_MASKKEY
      modifies this, ibuf, pipe`taken
      ensures code != PROTO && Stepped(old(frames), old(Unread()), 4, code)
      ensures code == OK ==> istate == RECV_PAYLOAD && GotSoFar(cur) == []
      ensures code == WANT_READ ==> cur == NoFrame
      ensures pipe.taken >= old(pipe.taken)
      ensures code == WANT_READ && pipe.lively ==> pipe.taken > old(pipe.taken) || pipe.taken == |pipe.bytes|
    {
      hide StreamBytes, EncodeHeader, Mask, AllFaithful, ParseHeader, ParseStream;
      code := Need(ireqread);
      if code == OK {
        ParseMaskKey();
      } else {
        PrefixNeedsKey(hb, fin, rsv, opcode, ipayloadlen, Buffered());
        PendingHeader();
      }
    }

    /** The loop over the payload bytes in the buffer. */
    method XorInPlace(n: nat)
      requires ibufmark + n <= ibuf.Length
      modifies this`ibufmark, this`ipayloadoff, ibuf
      ensures ibufmark == old(ibufmark) + n && ipayloadoff == old(ipayloadoff) + n
      ensures forall j | old(ibufmark) <= j < ibufmark ::
        ibuf[j] == Xor(old(ibuf[j]), imaskkey[(old(ipayloadoff) + (j - old(ibufmark))) % 4])
      ensures forall j | ibufmark <= j < ibuf.Length :: ibuf[j] == old(ibuf[j])
    {
      hide Xor;
      for i := 0 to n
        invariant ibufmark == old(ibufmark) + i && ipayloadoff == old(ipayloadoff) + i
        invariant forall j | old(ibufmark) <= j < ibufmark ::
          ibuf[j] == Xor(old(ibuf[j]), imaskkey[(old(ipayloadoff) + (j - old(ibufmark))) % 4])
        invariant forall j | ibufmark <= j < ibuf.Length :: ibuf[j] == old(ibuf[j])
      {
        ibuf[ibufmark] := Xor(ibuf[ibufmark], imaskkey[ipayloadoff % 4]);
        ibufmark, ipayloadoff := ibufmark + 1, ipayloadoff + 1;
      }
    }

    /** Unmasks the next n buffered bytes in place. */
    method Unmask(n: nat)
      requires ibufmark + n <= ibuflimit <= ibuf.Length
      modifies this`ibufmark, this`ipayloadoff, ibuf
      ensures ibufmark == old(ibufmark) + n && ipayloadoff == old(ipayloadoff) + n
      ensures ibuf[old(ibufmark)..ibufmark] == Mask(Some(imaskkey), old(ibuf[ibufmark..ibufmark + n]), old(ipayloadoff))
      ensures Buffered() == old(ibuf[ibufmark + n..ibuflimit])
    {
      hide Xor;
      ghost var raw := ibuf[ibufmark..ibufmark + n];
      XorInPlace(n);
      ghost var m := Mask(Some(imaskkey), raw, old(ipayloadoff));
      forall i | 0 <= i < n
        ensures ibuf[old(ibufmark)..ibufmark][i] == m[i]
      {
        assert ibuf[old(ibufmark) + i] == Xor(raw[i], imaskkey[(old(ipayloadoff) + i) % 4]);
      }
    }

    /** Moves n payload bytes from the buffer to the frame; data are these bytes, unmasked. */
    method Consume(n: nat) returns (data: seq<byte>)
      requires Coupled() && cur.Body? && n <= |Buffered()| && ipayloadoff + n <= ipayloadlen
      modifies this`ibufmark, this`ipayloadoff, this`cur, ibuf
      ensures Coupled() && |data| == n && ibufmark == old(ibufmark) + n
      ensures cur == old(cur).(got := old(cur.got) + data)
    {
      hide StreamBytes, EncodeHeader, Mask, AllFaithful;
      var readmark := ibufmark;
      ghost var raw, rest, off := ibuf[ibufmark..ibufmark + n], ibuf[ibufmark + n..ibuflimit], ipayloadoff;
      assert Buffered() == raw + rest;
      if imask {
        Unmask(n);
      } else {
        ibufmark, ipayloadoff := ibufmark + n, ipayloadoff + n;
        Unmasked(raw, off);
      }
      data := ibuf[readmark..ibufmark];
      assert data == Mask(cur.h.key, raw, off) && Buffered() == rest;
      PayloadGrows(StreamBytes(frames), cur.h, cur.got, raw, rest);
      cur := cur.(got := cur.got + data);
    }

    /** A complete frame: the next header is awaited. */
    method FinishFrame()
      requires Coupled() && cur.Body? && ipayloadlen == ipayloadoff
      modifies this`istate, this`ireqread, this`frames, this`cur, this`hb
      ensures Valid() && frames == old(frames + [Received(cur.h, cur.got)]) && cur == NoFrame
    {
      hide StreamBytes, EncodeHeader, Mask, AllFaithful;
      FrameDone(frames, cur.h, cur.got);
      istate, ireqread := RECV_HEADER1, 2;
      frames, cur, hb := frames + [Received(cur.h, cur.got)], NoFrame, [];
      assert StreamBytes(frames) + [] == StreamBytes(frames);
    }

    /** Hands over what the buffer holds of the payload. */
    method Deliver() returns (io: Iocb, ghost b: Incoming)
      requires Coupled() && istate == RECV_PAYLOAD
      requires ipayloadoff < ipayloadlen ==> Buffered() != []
      modifies this, ibuf
      ensures Valid() && Unread() == old(Unread()) - |io.data|
      ensures Grows(old(cur), io, b) && Settles(b, io, old(frames), frames, cur)
    {
      hide StreamBytes, EncodeHeader, Mask, AllFaithful;
      var rem := ipayloadlen - ipayloadoff;
      var data := Consume(if ibuflimit - ibufmark < rem then ibuflimit - ibufmark else rem);
      io := Iocb(fin, rsv, opcode, imask, ipayloadlen, data);
      b := cur;
      if ipayloadlen == ipayloadoff {
        FinishFrame();
      }
    }

    /** The payload state: asks for input only when the buffer is empty and payload is missing. */
    method RecvPayload() returns (code: Code, io: Iocb, ghost b: Incoming)
      requires Coupled() && istate == RECV_PAYLOAD
      modifies this, ibuf, pipe`taken
      ensures code != PROTO && pipe.taken <= |pipe.bytes|
      ensures code == OK ==> Valid() && Unread() == old(Unread()) - |io.data|
      ensures code == OK ==> Grows(old(cur), io, b) && Settles(b, io, old(frames), frames, cur)
      ensures code == WANT_READ ==> Stepped(old(frames), old(Unread()), 0, WANT_READ) && cur == old(cur)
      ensures pipe.taken >= old(pipe.taken)
      ensures code == WANT_READ && pipe.lively ==> pipe.taken > old(pipe.taken) || pipe.taken == |pipe.bytes|
    {
      hide StreamBytes, EncodeHeader, Mask, AllFaithful, ParseStream;
      code, io, b := OK, Iocb(fin, rsv, opcode, imask, ipayloadlen, []), cur;
      if ibufmark == ibuflimit && ipayloadoff < ipayloadlen {
        code := Fill();
      }
      if code == OK {
        io, b := Deliver();
      } else {
        PendingPayload();
      }
    }

    /** wslay_frame_recv: the states fall through as far as the input reaches. */
    method Recv() returns (code: Code, io: Iocb, ghost b: Incoming)
      requires Valid()
      modifies this, ibuf, pipe`taken
      ensures pipe.taken <= |pipe.bytes|
      ensures code == OK ==> Valid() && Unread() < old(Unread())
      ensures code == OK ==> Grows(old(cur), io, b) && Settles(b, io, old(frames), frames, cur)
      ensures code == WANT_READ ==> Valid() && Unread() <= old(Unread()) && frames == old(frames)
      ensures code == WANT_READ ==> GotSoFar(cur) == old(GotSoFar(cur)) && (old(cur).Body? ==> cur == old(cur))
      ensures code == WANT_READ ==> ParseStream(Fed()) == Parse(frames, PendingTail())
      ensures code == PROTO ==> frames == old(frames) && ParseStream(Fed()) == Parse(frames, Violation)
      ensures pipe.taken >= old(pipe.taken)
      ensures code == WANT_READ && pipe.lively ==> pipe.taken > old(pipe.taken) || pipe.taken == |pipe.bytes|
    {
      hide StreamBytes, EncodeHeader, Mask, AllFaithful, ParseStream;
      code, io, b := OK, Iocb(fin, rsv, opcode, imask, ipayloadlen, []), cur;
      if istate == RECV_HEADER1 {
        code := RecvHeader1();
      }
      if code == OK && istate == RECV_EXT_PAYLOADLEN {
        code := RecvExtPayloadLen();
      }
      if code == OK && istate == RECV_MASKKEY {
        code := RecvMaskKey();
      }
      if code == OK {
        code, io, b := RecvPayload();
      }
    }
  }
}
