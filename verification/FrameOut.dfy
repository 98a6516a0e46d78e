/** The resumable frame printer. */
module FrameOut {
  import opened Bytes
  import opened Headers
  import opened Stream
  import opened Transport

  const TEMP_SIZE := 4096

  datatype OState = PREP_HEADER | SEND_HEADER | SEND_PAYLOAD

  /** The control block of one call; data is the unsent part of the payload the caller offers. */
  datatype Iocb = Iocb(fin: bool, rsv: byte, opcode: byte, mask: bool, payloadLength: nat, data: seq<byte>)

  datatype Code = OK | WANT_WRITE | INVALID_ARGUMENT | INVALID_CALLBACK

  /** The frame being printed: its header, the key really applied, and the payload accepted so far. */
  datatype Progress = Idle | Busy(h: PrintableHeader, mask: Option<Key>, sent: seq<byte>)

  function FrameOf(b: Progress): Frame
    requires b.Busy?
  {
    Frame(b.h, b.mask, b.sent)
  }

  /** h is the header that io asks for, with some key if io asks for one. */
  predicate HeaderFor(io: Iocb, h: Header) {
    && h.fin == io.fin && h.rsv == io.rsv % 8 && h.opcode == io.opcode % 16
    && h.key.Some? == io.mask && h.len == io.payloadLength
  }

  /** b is the frame before the call, or a new one made from io, with n bytes of io.data accepted. */
  predicate Continues(before: Progress, io: Iocb, n: nat, b: Progress) {
    && b.Busy? && n <= |io.data|
    && (if before.Busy? then b == before.(sent := before.sent + io.data[..n])
        else HeaderFor(io, b.h) && b.sent == io.data[..n] && (io.mask ==> b.mask == b.h.key))
  }

  /** With one masking choice per context the applied key is the header's. */
  lemma MaskFollows(before: Progress, io: Iocb, n: nat, b: Progress)
    requires Continues(before, io, n, b)
    requires before.Busy? ==> before.mask == before.h.key
    requires before.Idle? && !io.mask ==> b.mask.None?
    ensures b.Busy? && n <= |io.data| && b.mask == b.h.key
  {
  }

  /** A frame whose payload is complete joins the finished ones; the printer is idle again. */
  predicate Settles(b: Progress, done: seq<Frame>, done': seq<Frame>, cur': Progress)
    requires b.Busy?
  {
    if |b.sent| == b.h.len then done' == done + [FrameOf(b)] && cur' == Idle
    else done' == done && cur' == b
  }

  /** Payload lengths for which no header is written. */
  predicate Oversized(io: Iocb) {
    (IsControl(io.opcode) && io.payloadLength > 125) || io.payloadLength >= MAX_PAYLOAD
  }

  function HeaderOf(io: Iocb, key: Option<Key>): PrintableHeader
    requires !Oversized(io)
  {
    Header(io.fin, io.rsv % 8, io.opcode % 16, key, io.payloadLength)
  }

  /** The header of io up to the key. */
  function PrefixFor(io: Iocb): seq<byte>
    requires !Oversized(io)
  {
    [FirstByte(io.fin, io.rsv % 8, io.opcode % 16), (if io.mask then 128 else 0) + LengthCode(io.payloadLength)]
    + ExtendedLength(io.payloadLength)
  }

  lemma EncodeHeaderFor(io: Iocb, key: Option<Key>)
    requires !Oversized(io)
    ensures key.Some? == io.mask ==> EncodeHeader(HeaderOf(io, key)) == PrefixFor(io) + KeyBytes(key)
    ensures key.None? && !io.mask ==> EncodeHeader(HeaderOf(io, key)) == PrefixFor(io)
  {
    assert PrefixFor(io) + [] == PrefixFor(io);
  }

  lemma HeaderPieces(sent: seq<byte>, header: seq<byte>, mark: nat, r: nat)
    requires mark + r <= |header|
    ensures (sent + header[..mark]) + header[mark..][..r] == sent + header[..mark + r]
  {
  }

  lemma PayloadPieces(sent: seq<byte>, header: seq<byte>, a: seq<byte>, b: seq<byte>)
    ensures (sent + (header + a)) + b == sent + (header + (a + b))
  {
  }

  /** Masked bytes that were accepted extend the masked payload. */
  lemma PayloadAccepted(before: seq<byte>, header: seq<byte>, mask: Option<Key>, sent: seq<byte>,
                        data: seq<byte>, r: nat)
    requires r <= |data|
    ensures (before + (header + Mask(mask, sent, 0))) + Mask(mask, data, |sent|)[..r]
         == before + (header + Mask(mask, sent + data[..r], 0))
  {
    hide Mask;
    MaskConcat(mask, data[..r], data[r..], |sent|);
    assert data[..r] + data[r..] == data;
    MaskConcat(mask, sent, data[..r], 0);
    PayloadPieces(before, header, Mask(mask, sent, 0), Mask(mask, data[..r], |sent|));
  }

  lemma NothingMasked(key: Option<Key>)
    ensures Mask(key, [], 0) == []
  {
  }

  /** A proper part of a header makes no frame. */
  lemma HeaderInPart(s: seq<byte>, h: PrintableHeader)
    requires WellFormed(h) && |s| < |EncodeHeader(h)| && s <= EncodeHeader(h)
    ensures ParseStream(s) == Parse([], InHeader(s))
  {
    hide EncodeHeader, ParseHeader;
    var whole := EncodeHeader(h);
    DecodeEncode(h, []);
    assert whole + [] == whole;
    assert s + whole[|s|..] == whole;
    if ParseHeader(s) != NeedMore {
      ParseHeaderExtends(s, whole[|s|..]);
    }
  }

  /** Neither does a header with a part of its payload. */
  lemma PayloadInPart(h: PrintableHeader, masked: seq<byte>)
    requires WellFormed(h) && |masked| < h.len
    ensures ParseStream(EncodeHeader(h) + masked) == Parse([], InPayload(h, Mask(h.key, masked, 0)))
  {
    hide EncodeHeader, ParseHeader, Mask;
    DecodeEncode(h, masked);
    assert (EncodeHeader(h) + masked)[|EncodeHeader(h)|..] == masked;
  }

  function KeyOf(h: Header): seq<Key> {
    match h.key case None => [] case Some(k) => [k]
  }

  /** The keys of the frames that have one. */
  function KeysOf(fs: seq<Frame>): seq<Key> {
    if fs == [] then [] else KeysOf(fs[..|fs| - 1]) + KeyOf(fs[|fs| - 1].h)
  }

  lemma KeysOfSnoc(fs: seq<Frame>, f: Frame)
    ensures KeysOf(fs + [f]) == KeysOf(fs) + KeyOf(f.h)
  {
    assert (fs + [f])[..|fs|] == fs;
  }

  class FrameSender {
    const pipe: Pipe
    const oheader: array<byte>
    var oheadermark: nat
    var oheaderlimit: nat
    var opayloadlen: nat
    var opayloadoff: nat
    var omask: bool
    var omaskkey: Key
    var ostate: OState
    ghost var done: seq<Frame>  // frames completely accepted by the send callback
    ghost var keys: seq<Key>    // the keys the genmask callback gave
    ghost var maskRefused: bool // the last genmask call, if there was one in this call, gave none
    ghost var cur: Progress

    /** The key that SEND_PAYLOAD applies: omask is never cleared. */
    ghost function Applied(): Option<Key>
      reads `omask, `omaskkey
    {
      if omask then Some(omaskkey) else None
    }

    ghost predicate Coupled()
      reads `ostate, `cur, `opayloadlen, `opayloadoff, `omask, `omaskkey, `oheadermark, `oheaderlimit, oheader
    {
      && oheader.Length == 14
      && (ostate == PREP_HEADER <==> cur.Idle?)
      && (cur.Busy? ==> opayloadlen == cur.h.len && opayloadoff == |cur.sent| && cur.mask == Applied())
      && (ostate == SEND_HEADER ==>
            && oheadermark < oheaderlimit == |EncodeHeader(cur.h)|
            && oheader[..oheaderlimit] == EncodeHeader(cur.h) && cur.sent == [])
    }

    /** The bytes of the frame being printed that are already out. */
    ghost function CurBytes(): seq<byte>
      reads `ostate, `cur, `opayloadlen, `opayloadoff, `omask, `omaskkey, `oheadermark, `oheaderlimit, oheader
      requires Coupled()
    {
      match ostate
      case PREP_HEADER => []
      case SEND_HEADER => EncodeHeader(cur.h)[..oheadermark]
      case SEND_PAYLOAD => FrameBytes(FrameOf(cur))
    }

    /** The bytes out are the frames done and a part of the current one. */
    ghost predicate Intact()
      reads `ostate, `cur, `opayloadlen, `opayloadoff, `omask, `omaskkey, `oheadermark, `oheaderlimit, oheader
      reads `done, pipe`bytes, pipe`overran
    {
      !pipe.overran && Coupled() && pipe.bytes == StreamBytes(done) + CurBytes()
    }

    /** And every key that was drawn is the key of one frame, in order. */
    ghost predicate Valid()
      reads `ostate, `cur, `opayloadlen, `opayloadoff, `omask, `omaskkey, `oheadermark, `oheaderlimit, oheader
      reads `done, `keys, pipe`bytes, pipe`overran
    {
      Intact() && keys == KeysOf(done) + if cur.Busy? then KeyOf(cur.h) else []
    }

    /** Between calls a frame in SEND_PAYLOAD still misses payload. */
    ghost predicate Unfinished()
      reads `ostate, `opayloadoff, `opayloadlen
    {
      ostate == SEND_PAYLOAD ==> opayloadoff != opayloadlen
    }

    constructor (pipe: Pipe)
      requires pipe.bytes == [] && !pipe.overran
      ensures Valid() && Unfinished() && done == [] && cur == Idle && this.pipe == pipe && fresh(oheader) && !omask
    {
      this.pipe := pipe;
      oheader := new byte[14](_ => 0);
      oheadermark, oheaderlimit, opayloadlen, opayloadoff := 0, 0, 0, 0;
      omask, omaskkey, ostate := false, [0, 0, 0, 0], PREP_HEADER;
      done, cur, keys, maskRefused := [], Idle, [], false;
    }

    /** What is out belongs to the frames done and, once its payload is complete, the one under way. */
    lemma BytesForeseen(payload: seq<byte>)
      requires Valid()
      ensures cur.Idle? ==> pipe.bytes == StreamBytes(done)
      ensures cur.Busy? && cur.sent <= payload ==> pipe.bytes <= StreamBytes(done + [Frame(cur.h, cur.mask, payload)])
    {
      hide StreamBytes, EncodeHeader, Mask;
      if cur.Busy? && cur.sent <= payload {
        var f := Frame(cur.h, cur.mask, payload);
        StreamBytesSnoc(done, f);
        assert CurBytes() <= FrameBytes(f) by {
          MaskPrefix(cur.mask, cur.sent, payload);
        }
        hide FrameBytes, CurBytes;
        assert StreamBytes(done) + FrameBytes(f) == (StreamBytes(done) + CurBytes()) + FrameBytes(f)[|CurBytes()|..];
      } else {
        assert StreamBytes(done) + [] == StreamBytes(done);
      }
    }

    /** What is out holds no complete frame beyond the finished ones. */
    lemma SentParsed()
      requires Valid() && Unfinished() && AllFaithful(done)
      requires cur.Busy? ==> WellFormed(cur.h) && |cur.sent| <= cur.h.len && cur.mask == cur.h.key
      ensures ParseStream(pipe.bytes).frames == done && !ParseStream(pipe.bytes).tail.Violation?
      ensures var t := ParseStream(pipe.bytes).tail;
        t.InPayload? ==> cur.Busy? && t.h == cur.h && t.got == cur.sent && |t.got| < t.h.len
    {
      hide StreamBytes, EncodeHeader, Mask, AllFaithful, ParseStream;
      ParsePrinted(done, CurBytes());
      if cur.Idle? {
        HeaderInPart([], Header(true, 0, 0, None, 0));
      } else if ostate == SEND_HEADER {
        HeaderInPart(CurBytes(), cur.h);
      } else {
        PayloadInPart(cur.h, Mask(cur.mask, cur.sent, 0));
        MaskCancels(cur.h.key, cur.sent, 0);
      }
      assert done + [] == done;
    }

    /** Writes the header up to the key; refuses lengths that do not fit. */
    method WritePrefix(io: Iocb) returns (code: Code, n: nat)
      requires oheader.Length == 14
      modifies oheader
      ensures code == if Oversized(io) then INVALID_ARGUMENT else OK
      ensures code == OK ==> n <= 10 && oheader[..n] == PrefixFor(io)
    {
      n := 2;
      oheader[0] := FirstByte(io.fin, io.rsv % 8, io.opcode % 16);
      oheader[1] := if io.mask then 128 else 0;
      if IsControl(io.opcode) && io.payloadLength > 125 {
        return INVALID_ARGUMENT, n;
      }
      if io.payloadLength < 126 {
        oheader[1] := oheader[1] + io.payloadLength;
        assert oheader[..2] == [oheader[0], oheader[1]] + [];
      } else if io.payloadLength < 0x1_0000 {
        oheader[1] := oheader[1] + 126;
        n := CopyIn(2, BigEndian(io.payloadLength, 2));
      } else if io.payloadLength < MAX_PAYLOAD {
        oheader[1] := oheader[1] + 127;
        n := CopyIn(2, BigEndian(io.payloadLength, 8));
      } else {
        return INVALID_ARGUMENT, n;
      }
      return OK, n;
    }

    /** Writes the header of io into oheader; nothing goes out. */
    method PrepHeader(io: Iocb) returns (code: Code)
      requires Valid() && cur.Idle? && !maskRefused
      modifies this, oheader
      ensures code == OK || code == INVALID_ARGUMENT || code == INVALID_CALLBACK
      ensures Valid() && done == old(done)
      ensures code == INVALID_ARGUMENT <==> Oversized(io)
      ensures code != OK ==> cur == Idle && omask == old(omask)
      ensures code == INVALID_CALLBACK <==> maskRefused
      ensures maskRefused ==> io.mask
      ensures code == OK ==> ostate == SEND_HEADER && Continues(Idle, io, 0, cur) && opayloadlen == io.payloadLength
      ensures code == OK ==> omask == (old(omask) || io.mask) && (!io.mask ==> omaskkey == old(omaskkey))
      ensures if code == OK then keys == old(keys) + KeyOf(cur.h) else keys == old(keys)
    {
      hide StreamBytes, EncodeHeader, PrefixFor, LengthCode, FirstByte, ExtendedLength, Printable, IsControl;
      var n: nat;
      code, n := WritePrefix(io);
      if code == INVALID_ARGUMENT {
        return;
      }
      if io.mask {
        code, n := PrepMask(n);
        if code == INVALID_CALLBACK {
          return;
        }
      }
      StartHeader(io, n);
    }

    /** The header is ready to go out. */
    method StartHeader(io: Iocb, n: nat)
      requires Intact() && cur.Idle? && !Oversized(io) && n <= oheader.Length && (io.mask ==> omask)
      requires keys == KeysOf(done) + if io.mask then [omaskkey] else []
      requires oheader[..n] == PrefixFor(io) + if io.mask then omaskkey else []
      modifies this`ostate, this`oheadermark, this`oheaderlimit, this`opayloadlen, this`opayloadoff, this`cur
      ensures Valid() && ostate == SEND_HEADER && Continues(Idle, io, 0, cur) && opayloadlen == io.payloadLength
    {
      hide StreamBytes, EncodeHeader, PrefixFor;
      ghost var key := if io.mask then Some(omaskkey) else None;
      ghost var h := HeaderOf(io, key);
      EncodeHeaderFor(io, key);
      ostate, oheadermark, oheaderlimit := SEND_HEADER, 0, n;
      opayloadlen, opayloadoff := io.payloadLength, 0;
      cur := Busy(h, Applied(), []);
      assert pipe.bytes == StreamBytes(done) + EncodeHeader(h)[..0];
    }

    /** A fresh masking key, behind the n bytes of the header that are ready. */
    method PrepMask(n: nat) returns (code: Code, end: nat)
      requires n + 4 <= oheader.Length && Valid() && cur.Idle?
      modifies this`omask, this`omaskkey, this`keys, this`maskRefused, oheader
      ensures code == if maskRefused then INVALID_CALLBACK else OK
      ensures code == INVALID_CALLBACK ==> omask == old(omask) && Valid() && keys == old(keys)
      ensures code == OK ==> omask && end == n + 4 && oheader[..end] == old(oheader[..n]) + omaskkey
      ensures code == OK ==> Intact() && keys == old(keys) + [omaskkey]
    {
      hide StreamBytes, EncodeHeader;
      code, end := OK, n;
      var r;
      r := GenMask();
      if r != 0 {
        return INVALID_CALLBACK, end;
      }
      omask := true;
      end := CopyIn(n, omaskkey);
    }

    /** The genmask callback: zero on success, with a key. */
    method GenMask() returns (r: int)
      modifies this`omaskkey, this`keys, this`maskRefused
      ensures maskRefused == (r != 0)
      ensures keys == if r == 0 then old(keys) + [omaskkey] else old(keys)
    {
      r := *;
      var a: byte, b: byte, c: byte, d: byte := *, *, *, *;
      omaskkey := [a, b, c, d];
      maskRefused := r != 0;
      if r == 0 {
        keys := keys + [omaskkey];
      }
    }

    /** memcpy into the header buffer. */
    method CopyIn(at: nat, s: seq<byte>) returns (end: nat)
      requires at + |s| <= oheader.Length
      modifies oheader
      ensures end == at + |s| && oheader[..end] == old(oheader[..at]) + s
    {
      forall i | 0 <= i < |s| {
        oheader[at + i] := s[i];
      }
      return at + |s|;
    }

    /** Offers the rest of the header to the send callback. */
    method SendHeader() returns (code: Code)
      requires Valid() && ostate == SEND_HEADER
      modifies this`oheadermark, this`ostate, pipe`bytes, pipe`stalled, pipe`overran
      ensures code == OK || code == WANT_WRITE || code == INVALID_CALLBACK
      ensures code == INVALID_CALLBACK <==> pipe.overran
      ensures code != INVALID_CALLBACK ==> Valid()
      ensures old(pipe.bytes) <= pipe.bytes
      ensures code == OK ==> ostate == SEND_PAYLOAD
      ensures code == WANT_WRITE ==> ostate == SEND_HEADER && pipe.stalled
      ensures code == WANT_WRITE && pipe.lively ==> |pipe.bytes| > |old(pipe.bytes)|
    {
      hide StreamBytes, EncodeHeader, Mask;
      var r := pipe.Send(oheader[oheadermark..oheaderlimit]);
      if r <= 0 {
        return WANT_WRITE;
      }
      if r > oheaderlimit - oheadermark {
        return INVALID_CALLBACK;
      }
      HeaderPieces(StreamBytes(done), EncodeHeader(cur.h), oheadermark, r);
      oheadermark := oheadermark + r;
      if oheadermark < oheaderlimit {
        return WANT_WRITE;
      }
      NothingMasked(cur.mask);
      assert EncodeHeader(cur.h)[..oheadermark] == EncodeHeader(cur.h);
      assert EncodeHeader(cur.h) + [] == EncodeHeader(cur.h);
      ostate := SEND_PAYLOAD;
      return OK;
    }

    /** r bytes of data were accepted, masked from the current payload offset on. */
    method Advance(r: nat, ghost data: seq<byte>, ghost before: seq<byte>)
      requires Coupled() && ostate == SEND_PAYLOAD && 0 < r <= |data|
      requires !pipe.overran && keys == KeysOf(done) + KeyOf(cur.h)
      requires before == StreamBytes(done) + CurBytes()
      requires pipe.bytes == before + Mask(cur.mask, data, opayloadoff)[..r]
      modifies this`cur, this`opayloadoff
      ensures Valid() && cur == old(cur).(sent := old(cur.sent) + data[..r])
    {
      hide StreamBytes, EncodeHeader, Mask;
      PayloadAccepted(StreamBytes(done), EncodeHeader(cur.h), cur.mask, cur.sent, data, r);
      cur := cur.(sent := cur.sent + data[..r]);
      opayloadoff := opayloadoff + r;
    }

    /** Fills temp with masked payload bytes. */
    method FillTemp(temp: array<byte>, block: seq<byte>)
      requires omask && |block| <= temp.Length
      modifies temp
      ensures temp[..|block|] == Mask(Some(omaskkey), block, opayloadoff)
    {
      hide Xor;
      for i := 0 to |block|
        invariant forall j | 0 <= j < i :: temp[j] == Xor(block[j], omaskkey[(opayloadoff + j) % 4])
      {
        temp[i] := Xor(block[i], omaskkey[(opayloadoff + i) % 4]);
      }
    }

    /** Payload in blocks of at most 4096 masked bytes, until all is accepted or the callback refuses. */
    method SendMasked(data: seq<byte>) returns (code: Code, total: nat)
      requires Valid() && ostate == SEND_PAYLOAD && omask && data != []
      modifies this`cur, this`opayloadoff, pipe`bytes, pipe`stalled, pipe`overran
      ensures code == OK || code == WANT_WRITE || code == INVALID_CALLBACK
      ensures code == INVALID_CALLBACK <==> pipe.overran
      ensures code != INVALID_CALLBACK ==>
        Valid() && total <= |data| && cur == old(cur).(sent := old(cur.sent) + data[..total])
      ensures code == OK ==> total > 0 && |pipe.bytes| > |old(pipe.bytes)|
      ensures code == WANT_WRITE ==> total == 0 && !pipe.lively
      ensures code != INVALID_CALLBACK && total < |data| ==> pipe.stalled
      ensures old(pipe.bytes) <= pipe.bytes
    {
      hide StreamBytes, EncodeHeader, Mask, CurBytes;
      var temp := new byte[TEMP_SIZE];
      total := 0;
      while total < |data|
        invariant total <= |data|
        invariant Valid() && cur == old(cur).(sent := old(cur.sent) + data[..total]) && old(pipe.bytes) <= pipe.bytes
        invariant total > 0 ==> |pipe.bytes| > |old(pipe.bytes)|
      {
        var block := data[total..total + if |data| - total < TEMP_SIZE then |data| - total else TEMP_SIZE];
        var r := SendBlock(temp, block);
        if r > |block| {
          return INVALID_CALLBACK, total;
        }
        if r <= 0 {
          return if total > 0 then OK else WANT_WRITE, total;
        }
        assert data[..total] + block[..r] == data[..total + r];
        total := total + r;
      }
      return OK, total;
    }

    /** One block, masked into temp, is offered to the send callback. */
    method SendBlock(temp: array<byte>, block: seq<byte>) returns (r: int)
      requires Valid() && ostate == SEND_PAYLOAD && omask && block != [] && |block| <= temp.Length && temp != oheader
      modifies temp, this`cur, this`opayloadoff, pipe`bytes, pipe`stalled, pipe`overran
      ensures pipe.overran <==> r > |block|
      ensures pipe.stalled == (r < |block|) && (pipe.lively ==> r > 0)
      ensures r <= |block| ==> Valid() && cur == old(cur).(sent := old(cur.sent) + block[..if r > 0 then r else 0])
      ensures old(pipe.bytes) <= pipe.bytes && (0 < r <= |block| ==> |pipe.bytes| > |old(pipe.bytes)|)
    {
      hide StreamBytes, EncodeHeader, Mask, CurBytes, KeysOf, KeyOf;
      FillTemp(temp, block);
      ghost var before := pipe.bytes;
      r := pipe.Send(temp[..|block|]);
      if 0 < r <= |block| {
        Advance(r, block, before);
      }
    }

    /** Unmasked payload goes out directly, in one call. */
    method SendPlain(data: seq<byte>) returns (code: Code, total: nat)
      requires Valid() && ostate == SEND_PAYLOAD && !omask && data != []
      modifies this`cur, this`opayloadoff, pipe`bytes, pipe`stalled, pipe`overran
      ensures code == OK || code == WANT_WRITE || code == INVALID_CALLBACK
      ensures code == INVALID_CALLBACK <==> pipe.overran
      ensures code != INVALID_CALLBACK ==>
        Valid() && total <= |data| && cur == old(cur).(sent := old(cur.sent) + data[..total])
      ensures code == OK ==> total > 0 && |pipe.bytes| > |old(pipe.bytes)|
      ensures code == WANT_WRITE ==> total == 0 && !pipe.lively
      ensures code != INVALID_CALLBACK && total < |data| ==> pipe.stalled
      ensures old(pipe.bytes) <= pipe.bytes
    {
      hide StreamBytes, EncodeHeader;
      total := 0;
      ghost var before := pipe.bytes;
      var r := pipe.Send(data);
      if r > |data| {
        return INVALID_CALLBACK, total;
      }
      if r <= 0 {
        return WANT_WRITE, total;
      }
      Advance(r, data, before);
      return OK, r;
    }

    /** Offers payload bytes to the send callback, masked or not. */
    method SendPayload(data: seq<byte>) returns (code: Code, total: nat)
      requires Valid() && ostate == SEND_PAYLOAD
      modifies this`cur, this`opayloadoff, pipe`bytes, pipe`stalled, pipe`overran
      ensures code == OK || code == WANT_WRITE || code == INVALID_CALLBACK
      ensures code == INVALID_CALLBACK <==> pipe.overran
      ensures code != INVALID_CALLBACK ==>
        Valid() && total <= |data| && cur == old(cur).(sent := old(cur.sent) + data[..total])
      ensures code == OK && data != [] ==> total > 0 && |pipe.bytes| > |old(pipe.bytes)|
      ensures code == WANT_WRITE ==> total == 0 && data != [] && !pipe.lively
      ensures code != INVALID_CALLBACK && total < |data| ==> pipe.stalled
      ensures old(pipe.bytes) <= pipe.bytes
    {
      hide StreamBytes, EncodeHeader, Mask, CurBytes;
      if data == [] {
        return OK, 0;
      }
      if omask {
        code, total := SendMasked(data);
      } else {
        code, total := SendPlain(data);
      }
    }

    /** wslay_frame_send. */
    method Send(io: Iocb) returns (code: Code, length: nat, ghost b: Progress)
      requires Valid()
      modifies this, oheader, pipe`bytes, pipe`stalled, pipe`overran
      ensures !pipe.overran ==> Valid()
      ensures code == INVALID_CALLBACK <==> pipe.overran || maskRefused
      ensures maskRefused ==> old(cur).Idle? && cur == Idle && done == old(done) && omask == old(omask)
      ensures code == INVALID_ARGUMENT <==> |io.data| > io.payloadLength || (old(cur).Idle? && Oversized(io))
      ensures code == INVALID_ARGUMENT ==> cur == old(cur) && done == old(done) && omask == old(omask)
      ensures code == OK || code == WANT_WRITE ==> Continues(old(cur), io, length, b)
      ensures code == OK || code == WANT_WRITE ==>
        keys == old(keys) + if old(cur).Idle? then KeyOf(b.h) else []
      ensures code == OK ==> Settles(b, old(done), done, cur) && (io.data != [] ==> length > 0)
      ensures code == WANT_WRITE ==> done == old(done) && cur == b && length == 0 && pipe.stalled
      ensures code == OK && length < |io.data| ==> pipe.stalled
      ensures (code == OK && io.data != []) || (code == WANT_WRITE && pipe.lively) ==> |pipe.bytes| > |old(pipe.bytes)|
      ensures old(pipe.bytes) <= pipe.bytes
      ensures !pipe.overran && old(Unfinished()) && (old(cur).Busy? ==> io.payloadLength == old(cur).h.len) ==>
        Unfinished()
      ensures code == OK || code == WANT_WRITE ==>
        omask == (old(omask) || (old(cur).Idle? && io.mask))
      ensures (code == OK || code == WANT_WRITE) && old(cur).Idle? && !io.mask ==> b.mask == old(Applied())
    {
      hide StreamBytes, EncodeHeader, Mask, CurBytes, FrameBytes, Oversized, HeaderFor, KeysOf, KeyOf;
      length, b, maskRefused := 0, cur, false;
      if |io.data| > io.payloadLength {
        return INVALID_ARGUMENT, length, b;
      }
      code := OK;
      if ostate == PREP_HEADER {
        code := PrepHeader(io);
      }
      if code == OK && ostate == SEND_HEADER {
        code := SendHeader();
      }
      if code == OK {
        code, length := SendPayload(io.data);
      }
      b := cur;
      if code == OK {
        Finish();
      }
    }

    /** Back to PREP_HEADER when the whole payload is out. */
    method Finish()
      requires Valid() && ostate == SEND_PAYLOAD
      modifies this`ostate, this`done, this`cur
      ensures Valid() && Unfinished() && Settles(old(cur), old(done), done, cur)
    {
      hide StreamBytes, EncodeHeader, Mask, KeysOf, KeyOf;
      if opayloadoff == opayloadlen {
        StreamBytesSnoc(done, FrameOf(cur));
        KeysOfSnoc(done, FrameOf(cur));
        ostate := PREP_HEADER;
        done, cur := done + [FrameOf(cur)], Idle;
        assert StreamBytes(done) + [] == StreamBytes(done);
      }
    }
  }
}
