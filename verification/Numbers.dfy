/** The numbers of RFC 6455 and of the interface, written out: bytes on the wire, status codes, return codes. */
module Numbers {
  import opened Bytes
  import opened Headers
  import opened Stream
  import opened Protocol
  import opened RecvModel
  import SendModel
  import Event
  import FrameOut
  import FrameIn
  import Utf8

  // -- The header, bit by bit --------------------------------------------

  /** Where section 5.2 puts the fields of the first two bytes. */
  lemma FirstTwoBytes(h: PrintableHeader)
    ensures var s := EncodeHeader(h);
      && (s[0] >= 128 <==> h.fin) && s[0] / 16 % 8 == h.rsv && s[0] % 16 == h.opcode
      && (s[1] >= 128 <==> h.key.Some?)
      && s[1] % 128 == if h.len <= 125 then h.len else if h.len <= 65535 then 126 else 127
  {
  }

  /** Two bytes of length, the high one first. */
  lemma TwoByteLength(h: PrintableHeader)
    requires 126 <= h.len <= 65535
    ensures var s := EncodeHeader(h);
      |s| == 4 + (if h.key.Some? then 4 else 0) && s[2] as int * 256 + s[3] == h.len
  {
    BigEndianOfTwo(h.len);
  }

  lemma BigEndianOfTwo(n: nat)
    requires n < 65536
    ensures BigEndian(n, 2) == [n / 256, n % 256]
  {
    assert BigEndian(n / 256, 1) == BigEndian(n / 256 / 256, 0) + [n / 256 % 256];
    assert BigEndian(n, 2) == BigEndian(n / 256, 1) + [n % 256];
  }

  /** Eight bytes of length, the last one the lowest, and the key as the last four bytes. */
  lemma EightByteLength(h: PrintableHeader)
    requires h.len >= 65536
    ensures var s := EncodeHeader(h);
      |s| == 10 + (if h.key.Some? then 4 else 0) && FromBigEndian(s[2..10]) == h.len && s[2] < 128
  {
    hide BigEndian, FromBigEndian, FirstByte;
    Pow256Values();
    BigEndianDecodes(h.len, 8);
    var s := EncodeHeader(h);
    assert s[2..10] == BigEndian(h.len, 8);
    TopByte(s[2..10]);
  }

  lemma TopByte(s: seq<byte>)
    requires |s| == 8 && FromBigEndian(s) < MAX_PAYLOAD
    ensures s[0] < 128
  {
    EightBytes(s);
  }

  lemma EightBytes(s: seq<byte>)
    requires |s| == 8
    ensures FromBigEndian(s) >= s[0] as int * 0x100_0000_0000_0000
  {
    Shifted(s, 1, 0x1);
    Shifted(s, 2, 0x100);
    Shifted(s, 3, 0x1_0000);
    Shifted(s, 4, 0x100_0000);
    Shifted(s, 5, 0x1_0000_0000);
    Shifted(s, 6, 0x100_0000_0000);
    Shifted(s, 7, 0x1_0000_0000_0000);
    Shifted(s, 8, 0x100_0000_0000_0000);
    assert s[..8] == s;
  }

  lemma Shifted(s: seq<byte>, k: nat, p: nat)
    requires 1 <= k <= |s| && (k == 1 ==> p == 1)
    requires k > 1 ==> p % 256 == 0 && FromBigEndian(s[..k - 1]) >= s[0] as int * (p / 256)
    ensures FromBigEndian(s[..k]) >= s[0] as int * p
  {
    assert s[..k][..k - 1] == s[..k - 1];
    if k > 1 {
      assert s[0] as int * p == 256 * (s[0] as int * (p / 256));
    }
  }

  /** Malformed: long or fragmented control frames, lengths not minimal or too large; nothing else. */
  lemma MalformedHeaders(s: seq<byte>)
    requires |s| >= 2
    ensures ParseHeader(s) == Malformed <==>
      || (8 <= s[0] % 16 <= 15 && (s[0] < 128 || s[1] % 128 > 125))
      || (s[1] % 128 == 126 && |s| >= 4 && s[2] as int * 256 + s[3] < 126)
      || (s[1] % 128 == 127 && |s| >= 10
          && (FromBigEndian(s[2..10]) < 65536 || FromBigEndian(s[2..10]) >= 0x8000_0000_0000_0000))
  {
    hide FromBigEndian;
    if |s| >= 4 {
      TwoBytes(s[2..4]);
    }
  }

  lemma TwoBytes(s: seq<byte>)
    requires |s| == 2
    ensures FromBigEndian(s) == s[0] as int * 256 + s[1]
  {
    assert s[..1][..0] == [];
    assert FromBigEndian(s[..1]) == 256 * FromBigEndian(s[..1][..0]) + s[0];
  }

  // -- The examples of section 5.7 ---------------------------------------

  const HELLO: seq<byte> := [0x48, 0x65, 0x6c, 0x6c, 0x6f]
  const MASKING_KEY: Key := [0x37, 0xfa, 0x21, 0x3d]

  lemma XorHello()
    ensures Xor(0x48, 0x37) == 0x7f && Xor(0x65, 0xfa) == 0x9f && Xor(0x6c, 0x21) == 0x4d
    ensures Xor(0x6c, 0x3d) == 0x51 && Xor(0x6f, 0x37) == 0x58
  {
  }

  lemma MaskedHello()
    ensures Mask(Some(MASKING_KEY), HELLO, 0) == [0x7f, 0x9f, 0x4d, 0x51, 0x58]
  {
    hide Xor;
    XorHello();
    var m := Mask(Some(MASKING_KEY), HELLO, 0);
    assert m[0] == 0x7f && m[1] == 0x9f && m[2] == 0x4d && m[3] == 0x51 && m[4] == 0x58;
  }

  /** A frame as it is printed, masked with the key of its header. */
  function OnWire(fin: bool, opcode: nat, key: Option<Key>, payload: seq<byte>): seq<byte>
    requires opcode < 16 && |payload| < MAX_PAYLOAD
  {
    FrameBytes(Frame(Header(fin, 0, opcode, key, |payload|), key, payload))
  }

  lemma ShortFrame(fin: bool, opcode: nat, key: Option<Key>, payload: seq<byte>)
    requires opcode < 16 && |payload| <= 125
    ensures OnWire(fin, opcode, key, payload) ==
      [(if fin then 0x80 else 0) + opcode, (if key.Some? then 0x80 else 0) + |payload|] + KeyBytes(key)
      + Mask(key, payload, 0)
  {
    hide Mask;
    var h := Header(fin, 0, opcode, key, |payload|);
    assert EncodePrefix(h) == [FirstByte(fin, 0, opcode), (if key.Some? then 0x80 else 0) + |payload|];
  }

  /** The single-frame and fragmented messages, the ping and the pong of section 5.7. */
  lemma Section57()
    ensures OnWire(true, TEXT, None, HELLO) == [0x81, 0x05, 0x48, 0x65, 0x6c, 0x6c, 0x6f]
    ensures OnWire(true, TEXT, Some(MASKING_KEY), HELLO) ==
      [0x81, 0x85, 0x37, 0xfa, 0x21, 0x3d, 0x7f, 0x9f, 0x4d, 0x51, 0x58]
    ensures OnWire(false, TEXT, None, HELLO[..3]) == [0x01, 0x03, 0x48, 0x65, 0x6c]
    ensures OnWire(true, CONTINUATION, None, HELLO[3..]) == [0x80, 0x02, 0x6c, 0x6f]
    ensures OnWire(true, PING, None, HELLO) == [0x89, 0x05, 0x48, 0x65, 0x6c, 0x6c, 0x6f]
    ensures OnWire(true, PONG, Some(MASKING_KEY), HELLO) ==
      [0x8a, 0x85, 0x37, 0xfa, 0x21, 0x3d, 0x7f, 0x9f, 0x4d, 0x51, 0x58]
  {
    hide OnWire, Mask;
    MaskedHello();
    ShortFrame(true, TEXT, None, HELLO);
    ShortFrame(true, TEXT, Some(MASKING_KEY), HELLO);
    ShortFrame(false, TEXT, None, HELLO[..3]);
    ShortFrame(true, CONTINUATION, None, HELLO[3..]);
    ShortFrame(true, PING, None, HELLO);
    ShortFrame(true, PONG, Some(MASKING_KEY), HELLO);
    NoMask(HELLO);
    NoMask(HELLO[..3]);
    NoMask(HELLO[3..]);
  }

  lemma NoMask(data: seq<byte>)
    ensures Mask(None, data, 0) == data
  {
  }

  /** A binary message of 256 bytes, and one of 64 KiB. */
  lemma LongHeaders()
    ensures EncodeHeader(Header(true, 0, BINARY, None, 256)) == [0x82, 0x7e, 0x01, 0x00]
    ensures EncodeHeader(Header(true, 0, BINARY, None, 65536)) == [0x82, 0x7f, 0, 0, 0, 0, 0, 0x01, 0x00, 0x00]
  {
    BigEndianOfTwo(256);
    BigEndianOfTwo(0);
    assert BigEndian(0, 4) == [0, 0, 0, 0] && BigEndian(1, 6) == BigEndian(0, 5) + [1];
    assert BigEndian(65536, 8) == BigEndian(256, 7) + [0];
    assert BigEndian(256, 7) == BigEndian(1, 6) + [0];
  }

  /** The shifts of the decoder are powers of two. */
  lemma Shifts(c: nat)
    requires c < 12
    ensures Utf8.Two(c) == Pow2(c)
  {
    assert Pow2(4) == 16 && Pow2(8) == 256;
  }

  // -- What is refused, and with which code ------------------------------

  /** An opcode that may come when a fragmented message is under way, or when none is. */
  predicate Expected(fragmented: bool, opcode: nat) {
    opcode == 8 || opcode == 9 || opcode == 10 || (if fragmented then opcode == 0 else opcode == 1 || opcode == 2)
  }

  /** The header alone is refused with 1002 or 1009; buffered is what the message under way already holds. */
  lemma HeaderCodes(cfg: Config, open: Option<Msg>, h: Header)
    requires cfg.buffering && cfg.maxLength < 0x1_0000_0000_0000_0000
    ensures var total := h.len + if h.opcode == 0 && open.Some? then |open.value.payload| else 0;
      JudgeHeader(cfg, open, h) ==
        if h.rsv != 0 || h.key.Some? != cfg.server || !Expected(open.Some?, h.opcode) then Refuse(1002)
        else if total % 0x1_0000_0000_0000_0000 > cfg.maxLength then Refuse(1009)
        else if total >= 0x1_0000_0000_0000_0000 then OutOfMemory
        else Fine
  {
  }

  /** Without buffering the limit is on the frame. */
  lemma UnbufferedCodes(cfg: Config, open: Option<Msg>, h: Header)
    requires !cfg.buffering && h.len < 0x1_0000_0000_0000_0000
    ensures JudgeHeader(cfg, open, h) ==
      if h.rsv != 0 || h.key.Some? != cfg.server || !Expected(open.Some?, h.opcode) then Refuse(1002)
      else if h.len > cfg.maxLength then Refuse(1009)
      else Fine
  {
  }

  /** Text is refused with 1007 as soon as it cannot be completed, and at the end of the message if it is ill-formed. */
  lemma TextCodes(open: Option<Msg>, h: Header, got: seq<byte>)
    requires if open.Some? then open.value.opcode == 1 && h.opcode == 0 else h.opcode == 1
    ensures var text := (if open.Some? then open.value.payload else []) + got;
      JudgeContent(open, h, got, []) ==
        if !Utf8.Viable(text) || (|got| == h.len && h.fin && !Utf8.WellFormed(text)) then Refuse(1007) else Fine
  {
    hide Utf8.Viable, Utf8.WellFormed;
    assert [] + got == got;
  }

  /** The status codes an endpoint may send. */
  predicate Sendable(status: nat) {
    1000 <= status <= 1003 || 1007 <= status <= 1011 || 3000 <= status <= 4999
  }

  /** A Close that came in one piece, with a well-formed reason: its status decides. */
  lemma CloseCodes(open: Option<Msg>, h: Header, payload: seq<byte>)
    requires h.opcode == 8 && h.fin && |payload| == h.len >= 2 && Utf8.WellFormed(payload[2..])
    ensures JudgeContent(open, h, payload, CheckedOver(h, [payload])) ==
      if Sendable(payload[0] as int * 256 + payload[1]) then Fine else Refuse(1002)
  {
    hide Utf8.Viable, Utf8.WellFormed;
    WellFormedIsViable(payload[2..]);
    CheckedInOne(h, payload);
    StatusNumber(payload);
  }

  lemma CheckedInOne(h: Header, payload: seq<byte>)
    requires h.opcode == 8 && |payload| >= 2
    ensures CheckedOver(h, [payload]) == payload[2..]
  {
    assert [payload][..0] == [];
    assert CheckedOver(h, []) == [];
    assert [] + payload[2..] == payload[2..];
  }

  lemma StatusNumber(payload: seq<byte>)
    requires |payload| >= 2
    ensures StatusOf(payload) == payload[0] as int * 256 + payload[1]
  {
    TwoBytes(payload[..2]);
  }

  /** The status on record for a Close: 1005 for one without. */
  lemma RecordedStatus(payload: seq<byte>)
    ensures SendModel.SentStatus(payload) ==
      if |payload| >= 2 && (payload[0] != 0 || payload[1] != 0) then payload[0] as int * 256 + payload[1] else 1005
  {
    if |payload| >= 2 {
      StatusNumber(payload);
    }
  }

  /** The codes of the interface. */
  lemma Codes(stop: Stop, log: seq<Logged>)
    ensures Event.ERR_INVALID_ARGUMENT == -300 && Event.ERR_NO_MORE_MSG == -302 && Event.ERR_WOULDBLOCK == -401
    ensures Event.OBUF_SIZE == FrameOut.TEMP_SIZE == FrameIn.IBUF_SIZE == 4096
    ensures Event.ABNORMAL_CLOSURE == 1006 && ERR_CALLBACK_FAILURE == -400
    ensures (stop.Violated? || stop.Failed?) && Answered(log) ==> RecvCode(stop, log) == -400
    ensures stop.Refused? && stop.verdict == OutOfMemory ==> RecvCode(stop, log) == -1
  {
  }
}
