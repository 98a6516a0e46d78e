/** The frame header of section 5.2 of RFC 6455: its printer, its parser, and the bijection between them. */
module Headers {
  import opened Bytes

  const MAX_PAYLOAD := 0x8000_0000_0000_0000

  /** A frame header; the key is there exactly when the mask bit is set. */
  datatype Header = Header(fin: bool, rsv: nat, opcode: nat, key: Option<Key>, len: nat)

  predicate IsControl(opcode: nat) { opcode / 8 % 2 == 1 }

  /** What the printer accepts once its length test has passed. */
  predicate Printable(h: Header) { h.rsv < 8 && h.opcode < 16 && h.len < MAX_PAYLOAD }

  type PrintableHeader = h: Header | Printable(h) witness Header(true, 0, 0, None, 0)

  /** What section 5.2 and section 5.5 allow on the wire: control frames are short and final. */
  predicate WellFormed(h: Header) {
    Printable(h) && (IsControl(h.opcode) ==> h.fin && h.len <= 125)
  }

  function FirstByte(fin: bool, rsv: nat, opcode: nat): byte
    requires rsv < 8 && opcode < 16
  {
    (if fin then 128 else 0) + rsv * 16 + opcode
  }

  /** The seven-bit length and the extended length behind it. */
  function LengthCode(len: nat): byte {
    if len < 126 then len else if len < 0x1_0000 then 126 else 127
  }

  function ExtendedLength(len: nat): seq<byte> {
    if len < 126 then [] else if len < 0x1_0000 then BigEndian(len, 2) else BigEndian(len, 8)
  }

  /** The header without its key: the part whose length the second byte announces. */
  function EncodePrefix(h: Header): (s: seq<byte>)
    requires Printable(h)
    ensures |s| >= 2
  {
    [FirstByte(h.fin, h.rsv, h.opcode), (if h.key.Some? then 128 else 0) + LengthCode(h.len)]
    + ExtendedLength(h.len)
  }

  function KeyBytes(key: Option<Key>): seq<byte> {
    match key case None => [] case Some(k) => k
  }

  function EncodeHeader(h: Header): (s: seq<byte>)
    requires Printable(h)
    ensures 2 <= |s| <= 14
  {
    EncodePrefix(h) + KeyBytes(h.key)
  }

  /** Outcome of reading one header from the front of a byte string. */
  datatype HeaderParse = NeedMore | Malformed | Got(h: Header, size: nat)

  /** Number of bytes of the extended length announced by the seven-bit length. */
  function ExtSize(code: nat): nat {
    if code == 126 then 2 else if code == 127 then 8 else 0
  }

  /** The length an extended field may carry: encodings are minimal and the top bit is clear. */
  predicate ExtLegal(code: nat, len: nat) {
    (code == 126 ==> len >= 126) && (code == 127 ==> 0x1_0000 <= len < MAX_PAYLOAD)
  }

  /** First two bytes alone already rule the header out. */
  predicate BadStart(b0: byte, b1: byte) {
    IsControl(b0 % 16) && (b1 % 128 > 125 || b0 < 128)
  }

  function LengthOf(b1: byte, ext: seq<byte>): nat {
    if b1 % 128 < 126 then b1 % 128 else FromBigEndian(ext)
  }

  function FieldsOf(b0: byte, key: Option<Key>, len: nat): Header {
    Header(b0 >= 128, b0 / 16 % 8, b0 % 16, key, len)
  }

  /** One-shot parser of a header at the front of s. */
  function ParseHeader(s: seq<byte>): (r: HeaderParse)
    ensures r.Got? ==> 2 <= r.size <= |s|
  {
    if |s| < 2 then NeedMore
    else if BadStart(s[0], s[1]) then Malformed
    else
      var e := 2 + ExtSize(s[1] % 128);
      if |s| < e then NeedMore
      else if !ExtLegal(s[1] % 128, LengthOf(s[1], s[2..e])) then Malformed
      else if s[1] < 128 then Got(FieldsOf(s[0], None, LengthOf(s[1], s[2..e])), e)
      else if |s| < e + 4 then NeedMore
      else Got(FieldsOf(s[0], Some(s[e..e + 4]), LengthOf(s[1], s[2..e])), e + 4)
  }

  // -- The bijection -----------------------------------------------------

  lemma ExtendedLengthDecodes(len: nat)
    requires len < MAX_PAYLOAD
    ensures |ExtendedLength(len)| == ExtSize(LengthCode(len))
    ensures ExtLegal(LengthCode(len), len)
    ensures LengthCode(len) >= 126 ==> FromBigEndian(ExtendedLength(len)) == len
  {
    Pow256Values();
    if 126 <= len < 0x1_0000 {
      BigEndianDecodes(len, 2);
    } else if len >= 0x1_0000 {
      BigEndianDecodes(len, 8);
    }
  }

  /** Reading back a printed header gives the header and its size, whatever follows it. */
  lemma DecodeEncode(h: Header, rest: seq<byte>)
    requires WellFormed(h)
    ensures ParseHeader(EncodeHeader(h) + rest) == Got(h, |EncodeHeader(h)|)
  {
    var s := EncodeHeader(h) + rest;
    ExtendedLengthDecodes(h.len);
    var e := 2 + |ExtendedLength(h.len)|;
    assert s[1] % 128 == LengthCode(h.len);
    assert s[2..e] == ExtendedLength(h.len);
    assert FieldsOf(s[0], h.key, h.len) == h;
    if h.key.Some? {
      assert s[e..e + 4] == h.key.value;
    }
  }

  /**
   The printer does not ask whether a control frame is final, the parser does: a printable header is read back
   exactly when it is well formed, and is malformed otherwise.
   */
  lemma PrintedIsReadBack(h: Header, rest: seq<byte>)
    requires Printable(h)
    ensures ParseHeader(EncodeHeader(h) + rest) == if WellFormed(h) then Got(h, |EncodeHeader(h)|) else Malformed
  {
    if WellFormed(h) {
      DecodeEncode(h, rest);
    } else {
      var s := EncodeHeader(h) + rest;
      assert s[0] == FirstByte(h.fin, h.rsv, h.opcode) && s[1] % 128 == LengthCode(h.len);
      assert BadStart(s[0], s[1]);
    }
  }

  lemma ExtendedLengthEncodes(b1: byte, ext: seq<byte>)
    requires |ext| == ExtSize(b1 % 128)
    requires ExtLegal(b1 % 128, LengthOf(b1, ext))
    ensures LengthCode(LengthOf(b1, ext)) == b1 % 128
    ensures ExtendedLength(LengthOf(b1, ext)) == ext
    ensures LengthOf(b1, ext) < MAX_PAYLOAD
  {
    Pow256Values();
    FromBigEndianEncodes(ext);
  }

  /** Every accepted header is well formed and re-encodes to the very bytes it was read from. */
  lemma EncodeDecode(s: seq<byte>)
    requires ParseHeader(s).Got?
    ensures var r := ParseHeader(s);
      WellFormed(r.h) && EncodeHeader(r.h) == s[..r.size]
  {
    var h, n := ParseHeader(s).h, ParseHeader(s).size;
    var e := 2 + ExtSize(s[1] % 128);
    ExtendedLengthEncodes(s[1], s[2..e]);
    assert WellFormed(h);
    assert FirstByte(h.fin, h.rsv, h.opcode) == s[0];
    assert EncodePrefix(h) == s[..e];
    if h.key.Some? {
      assert s[..e] + s[e..e + 4] == s[..e + 4];
    }
  }

  /** A decided header stays decided when more bytes arrive. */
  lemma ParseHeaderExtends(s: seq<byte>, t: seq<byte>)
    requires ParseHeader(s) != NeedMore
    ensures ParseHeader(s + t) == ParseHeader(s)
  {
    var u := s + t;
    if !BadStart(s[0], s[1]) {
      var e := 2 + ExtSize(s[1] % 128);
      assert u[2..e] == s[2..e];
      if s[1] >= 128 && |s| >= e + 4 {
        assert u[e..e + 4] == s[e..e + 4];
      }
    }
  }
}
