/** The two message slots of the receive half as values, and how they follow the sequential reassembler. */
module RecvModel {
  import opened Bytes
  import opened Headers
  import opened Stream
  import opened Protocol
  import FrameIn
  import Utf8

  const NO_OPCODE := 0xff

  const ERR_CALLBACK_FAILURE := -400

  /** One message slot; a chunk is the buffer of one frame's payload. */
  datatype IMsg = IMsg(fin: bool, rsv: nat, opcode: nat, utf8: Utf8.State, chunks: seq<seq<byte>>, msgLength: nat)

  datatype RecvView = RecvView(cfg: Config, slot0: IMsg, slot1: IMsg, second: bool, plen: nat, poff: nat)

  function Flatten(chunks: seq<seq<byte>>): seq<byte> {
    if chunks == [] then [] else Flatten(chunks[..|chunks| - 1]) + chunks[|chunks| - 1]
  }

  lemma FlattenSnoc(chunks: seq<seq<byte>>, c: seq<byte>)
    ensures Flatten(chunks + [c]) == Flatten(chunks) + c
  {
    assert (chunks + [c])[..|chunks|] == chunks;
  }

  /** The slot imsg points to. */
  function Slot(v: RecvView): IMsg { if v.second then v.slot1 else v.slot0 }

  function SetSlot(v: RecvView, m: IMsg): RecvView {
    if v.second then v.(slot1 := m) else v.(slot0 := m)
  }

  predicate Empty(m: IMsg) { m.opcode == NO_OPCODE && m.utf8 == Utf8.UTF8_ACCEPT && m.chunks == [] }

  /** The slot between two frames: empty, or holding the open message. */
  predicate Holds(cfg: Config, open: Option<Msg>, m: IMsg) {
    match open
    case None => Empty(m)
    case Some(p) =>
      && m.opcode == p.opcode && IsDataOpcode(p.opcode) && !m.fin && m.rsv == 0 && m.msgLength < COUNTER_LIMIT
      && m.utf8 == (if p.opcode == TEXT then Utf8.Run(Utf8.UTF8_ACCEPT, p.payload) else Utf8.UTF8_ACCEPT)
      && (if cfg.buffering then m.msgLength == |p.payload| && Flatten(m.chunks) == p.payload
          else m.msgLength == 0 && m.chunks == [])
  }

  /** The slot while the frame h comes in: got has arrived, checked of it went through the Close check. */
  predicate Filling(cfg: Config, open: Option<Msg>, h: Header, got: seq<byte>, checked: seq<byte>, m: IMsg) {
    && |got| <= h.len && m.opcode == MessageOpcode(open, h) && m.fin == h.fin && m.rsv == 0
    && m.utf8 == Utf8.Run(Utf8.UTF8_ACCEPT, TextSoFar(open, h, got, checked))
    && (if Buffered(cfg, h.opcode) then
          && m.msgLength == |Before(open, h)| + h.len
          && (if h.len == 0 then Flatten(m.chunks) == Before(open, h)
              else && m.chunks != []
                   && Flatten(m.chunks[..|m.chunks| - 1]) == Before(open, h)
                   && |m.chunks[|m.chunks| - 1]| == h.len
                   && m.chunks[|m.chunks| - 1][..|got|] == got)
        else m.msgLength == 0 && m.chunks == [])
  }

  /** Slot 1 is in use exactly for a control frame inside a fragmented message. */
  predicate UsesSecond(open: Option<Msg>, opcode: nat) { open.Some? && IsControl(opcode) }

  predicate Boundary(v: RecvView, open: Option<Msg>) {
    && v.plen == 0 && v.poff == 0 && !v.second
    && Holds(v.cfg, open, v.slot0) && Empty(v.slot1)
  }

  predicate MidFrame(v: RecvView, open: Option<Msg>, h: Header, got: seq<byte>, checked: seq<byte>) {
    && JudgeHeader(v.cfg, open, h) == Fine
    && v.plen == h.len && v.poff == |got|
    && v.second == UsesSecond(open, h.opcode)
    && Filling(v.cfg, open, h, got, checked, Slot(v))
    && (if v.second then Holds(v.cfg, open, v.slot0) else Empty(v.slot1))
  }

  // -- A new frame -------------------------------------------------------

  /** The slot for a frame that is in turn, and its fields. */
  function Select(v: RecvView, open: Option<Msg>, h: Header): RecvView {
    if v.slot0.opcode == NO_OPCODE then v.(slot0 := Set(v.slot0, h))
    else if h.opcode == CONTINUATION then v.(slot0 := v.slot0.(fin := h.fin))
    else v.(second := true, slot1 := Set(v.slot1, h))
  }

  /** wslay_event_imsg_set. */
  function Set(m: IMsg, h: Header): IMsg {
    m.(fin := h.fin, rsv := h.rsv, opcode := h.opcode, msgLength := 0)
  }

  /** A buffer for the payload, unless it is empty or not to be kept. */
  function AppendChunk(m: IMsg, len: nat, chunk: seq<byte>): IMsg {
    if len == 0 then m else m.(chunks := m.chunks + [chunk], msgLength := m.msgLength + len)
  }

  function Admit(v: RecvView, h: Header, chunk: seq<byte>): RecvView {
    var w := v.(plen := h.len);
    if Buffered(v.cfg, h.opcode) then SetSlot(w, AppendChunk(Slot(w), h.len, chunk)) else w
  }

  lemma HoldsOpcode(cfg: Config, open: Option<Msg>, m: IMsg)
    requires Holds(cfg, open, m)
    ensures open.None? <==> m.opcode == NO_OPCODE
  {
  }

  /** The slot machine's opcode test is the reassembler's. */
  lemma SelectTest(v: RecvView, open: Option<Msg>, h: Header)
    requires Boundary(v, open)
    ensures InTurn(open, h.opcode) <==>
      if v.slot0.opcode == NO_OPCODE then IsDataOpcode(h.opcode) || IsCtrlOpcode(h.opcode)
      else h.opcode == CONTINUATION || IsCtrlOpcode(h.opcode)
    ensures InTurn(open, h.opcode) ==> Slot(Select(v, open, h)).msgLength + h.len == Announced(v.cfg, open, h)
    ensures InTurn(open, h.opcode) ==> Slot(Select(v, open, h)).msgLength < COUNTER_LIMIT
    ensures InTurn(open, h.opcode) && !Buffered(v.cfg, h.opcode) ==> Slot(Select(v, open, h)).msgLength == 0
  {
    HoldsOpcode(v.cfg, open, v.slot0);
  }

  /** The tests on a header, in the order of the engine, are the verdict on it. */
  lemma HeaderTests(cfg: Config, open: Option<Msg>, h: PrintableHeader, before: nat)
    requires InTurn(open, h.opcode) ==>
      before + h.len == Announced(cfg, open, h) && before < COUNTER_LIMIT && (!Buffered(cfg, h.opcode) ==> before == 0)
    requires h.rsv == 0 && h.key.Some? == cfg.server
    ensures JudgeHeader(cfg, open, h) ==
      if !InTurn(open, h.opcode) then Refuse(PROTOCOL_ERROR)
      else if (before + h.len) % COUNTER_LIMIT > cfg.maxLength then Refuse(TOO_BIG)
      else if Buffered(cfg, h.opcode) && h.len > 0 && before + h.len >= COUNTER_LIMIT then OutOfMemory
      else Fine
  {
    hide Announced, Buffered;
  }

  lemma JudgeByHeader(cfg: Config, open: Option<Msg>, h: Header, got: seq<byte>, checked: seq<byte>)
    requires JudgeHeader(cfg, open, h) != Fine
    ensures Judge(cfg, open, h, got, checked) == JudgeHeader(cfg, open, h)
  {
  }

  lemma FlattenNone()
    ensures Flatten([]) == []
  {
  }

  /** The slot of a frame that is in turn, before any room is made for the payload. */
  predicate Selected(cfg: Config, open: Option<Msg>, h: Header, m: IMsg) {
    && m.opcode == MessageOpcode(open, h) && m.fin == h.fin && m.rsv == 0
    && m.utf8 == Utf8.Run(Utf8.UTF8_ACCEPT, TextSoFar(open, h, [], []))
    && (if Buffered(cfg, h.opcode) then m.msgLength == |Before(open, h)| && Flatten(m.chunks) == Before(open, h)
        else m.msgLength == 0 && m.chunks == [])
  }

  lemma SelectReady(v: RecvView, open: Option<Msg>, h: Header)
    requires Boundary(v, open) && InTurn(open, h.opcode) && h.rsv == 0
    ensures var w := Select(v, open, h);
      && Selected(v.cfg, open, h, Slot(w)) && w.second == UsesSecond(open, h.opcode) && w.poff == 0 && w.cfg == v.cfg
      && (if w.second then Holds(v.cfg, open, w.slot0) else Empty(w.slot1))
  {
    hide Utf8.Run;
    HoldsOpcode(v.cfg, open, v.slot0);
    FlattenNone();
    EmptyRun();
    hide Flatten;
    assert Before(open, h) + [] == Before(open, h);
  }

  lemma FillingStarts(cfg: Config, open: Option<Msg>, h: Header, m: IMsg, chunk: seq<byte>)
    requires Selected(cfg, open, h, m) && |chunk| == h.len
    ensures Filling(cfg, open, h, [], [], if Buffered(cfg, h.opcode) then AppendChunk(m, h.len, chunk) else m)
  {
    hide Utf8.Run, TextSoFar, Before, MessageOpcode, Buffered, Flatten;
    assert (m.chunks + [chunk])[..|m.chunks|] == m.chunks;
  }

  /** After a header that is fine the slot is ready for the payload. */
  lemma AdmitReady(v: RecvView, open: Option<Msg>, h: Header, chunk: seq<byte>)
    requires Boundary(v, open) && JudgeHeader(v.cfg, open, h) == Fine && |chunk| == h.len
    ensures MidFrame(Admit(Select(v, open, h), h, chunk), open, h, [], [])
  {
    hide Boundary, Select, Selected, Filling, Holds, Empty, UsesSecond, Announced, AppendChunk, Buffered;
    SelectReady(v, open, h);
    FillingStarts(v.cfg, open, h, Slot(Select(v, open, h)), chunk);
  }

  lemma EmptyRun()
    ensures Utf8.Run(Utf8.UTF8_ACCEPT, []) == Utf8.UTF8_ACCEPT
  {
  }

  // -- Payload bytes -----------------------------------------------------

  /** The bytes of a chunk that go through the UTF-8 automaton. */
  function TextPart(opcode: nat, data: seq<byte>): seq<byte> {
    if opcode == TEXT then data
    else if opcode == CLOSE && |data| > 2 then data[2..]
    else []
  }

  /** What of a Close has been checked after one more chunk. */
  function CheckedAfter(h: Header, checked: seq<byte>, data: seq<byte>): seq<byte> {
    if h.opcode == CLOSE then checked + TextPart(CLOSE, data) else checked
  }

  /** The bytes of a Close that were checked as text, when it came in these chunks. */
  function CheckedOver(h: Header, chunks: seq<seq<byte>>): seq<byte> {
    if chunks == [] then [] else CheckedAfter(h, CheckedOver(h, chunks[..|chunks| - 1]), chunks[|chunks| - 1])
  }

  /** The payload got of a frame came in these chunks; checked went through the check of a Close. */
  predicate Pieces(h: Header, got: seq<byte>, checked: seq<byte>, pieces: seq<seq<byte>>) {
    checked == CheckedOver(h, pieces) && Flatten(pieces) == got && forall i | 0 <= i < |pieces| :: pieces[i] != []
  }

  function PiecesAfter(pieces: seq<seq<byte>>, data: seq<byte>): seq<seq<byte>> {
    if data == [] then pieces else pieces + [data]
  }

  lemma PiecesStart(h: Header)
    ensures Pieces(h, [], [], [])
  {
  }

  lemma PiecesGrow(h: Header, got: seq<byte>, checked: seq<byte>, pieces: seq<seq<byte>>, data: seq<byte>)
    requires Pieces(h, got, checked, pieces)
    ensures Pieces(h, got + data, CheckedAfter(h, checked, data), PiecesAfter(pieces, data))
  {
    FlattenSnoc(pieces, data);
    assert (pieces + [data])[..|pieces|] == pieces;
    assert got + [] == got && checked + [] == checked;
  }

  function CheckText(v: RecvView, data: seq<byte>): RecvView {
    var m := Slot(v);
    SetSlot(v, m.(utf8 := Utf8.Run(m.utf8, TextPart(m.opcode, data))))
  }

  /** memcpy into the buffer of the current chunk. */
  function Overwrite(chunk: seq<byte>, off: nat, data: seq<byte>): seq<byte>
    requires off + |data| <= |chunk|
  {
    chunk[..off] + data + chunk[off + |data|..]
  }

  function Store(v: RecvView, h: Header, data: seq<byte>): RecvView
    requires data != [] && Buffered(v.cfg, h.opcode) ==>
      Slot(v).chunks != [] && v.poff + |data| <= |Slot(v).chunks[|Slot(v).chunks| - 1]|
  {
    var m, w := Slot(v), v.(poff := v.poff + |data|);
    if data != [] && Buffered(v.cfg, h.opcode) then
      var k := |m.chunks| - 1;
      SetSlot(w, m.(chunks := m.chunks[k := Overwrite(m.chunks[k], v.poff, data)]))
    else w
  }

  lemma TextGrows(open: Option<Msg>, h: Header, got: seq<byte>, checked: seq<byte>, data: seq<byte>)
    requires InTurn(open, h.opcode) && (open.Some? ==> IsDataOpcode(open.value.opcode))
    ensures TextSoFar(open, h, got + data, CheckedAfter(h, checked, data))
         == TextSoFar(open, h, got, checked) + TextPart(MessageOpcode(open, h), data)
  {
    assert (Before(open, h) + got) + data == Before(open, h) + (got + data);
    var none: seq<byte> := [];
    assert none + [] == none;
  }

  /** A chunk leaves the automaton where the text so far puts it: in REJECT exactly if that text is beyond repair. */
  lemma CheckTextRuns(v: RecvView, open: Option<Msg>, h: Header, got: seq<byte>, checked: seq<byte>, data: seq<byte>)
    requires MidFrame(v, open, h, got, checked) && (open.Some? ==> IsDataOpcode(open.value.opcode))
    ensures var text := TextSoFar(open, h, got + data, CheckedAfter(h, checked, data));
      && Slot(CheckText(v, data)).utf8 == Utf8.Run(Utf8.UTF8_ACCEPT, text)
      && (Slot(CheckText(v, data)).utf8 == Utf8.UTF8_REJECT <==> !Utf8.Viable(text))
  {
    hide Utf8.Run, Utf8.Viable, TextSoFar, TextPart, CheckedAfter, Holds;
    TextGrows(open, h, got, checked, data);
    Utf8.RunConcat(Utf8.UTF8_ACCEPT, TextSoFar(open, h, got, checked), TextPart(MessageOpcode(open, h), data));
    Utf8.RejectsUnviable(TextSoFar(open, h, got + data, CheckedAfter(h, checked, data)));
  }

  lemma OverwriteGrows(chunk: seq<byte>, got: seq<byte>, data: seq<byte>)
    requires |got| + |data| <= |chunk| && chunk[..|got|] == got
    ensures |Overwrite(chunk, |got|, data)| == |chunk|
    ensures Overwrite(chunk, |got|, data)[..|got| + |data|] == got + data
  {
  }

  /** The slot with one more chunk of payload. */
  function Filled(cfg: Config, h: Header, off: nat, m: IMsg, text: Utf8.State, data: seq<byte>): IMsg
    requires data != [] && Buffered(cfg, h.opcode) ==> m.chunks != [] && off + |data| <= |m.chunks[|m.chunks| - 1]|
  {
    if data != [] && Buffered(cfg, h.opcode) then
      var k := |m.chunks| - 1;
      m.(utf8 := text, chunks := m.chunks[k := Overwrite(m.chunks[k], off, data)])
    else m.(utf8 := text)
  }

  lemma FillingGrows(cfg: Config, open: Option<Msg>, h: Header, got: seq<byte>, checked: seq<byte>, m: IMsg,
                     data: seq<byte>, checked': seq<byte>)
    requires Filling(cfg, open, h, got, checked, m) && |got| + |data| <= h.len
    ensures data != [] && Buffered(cfg, h.opcode) ==>
      m.chunks != [] && |got| + |data| <= |m.chunks[|m.chunks| - 1]|
    ensures var utf8 := Utf8.Run(Utf8.UTF8_ACCEPT, TextSoFar(open, h, got + data, checked'));
      Filling(cfg, open, h, got + data, checked', Filled(cfg, h, |got|, m, utf8, data))
  {
    hide Utf8.Run, TextSoFar, Flatten, Before, Buffered, MessageOpcode;
    if data == [] {
      assert got + data == got;
    } else if Buffered(cfg, h.opcode) {
      var k := |m.chunks| - 1;
      OverwriteGrows(m.chunks[k], got, data);
      hide Overwrite;
      assert m.chunks[k := Overwrite(m.chunks[k], |got|, data)][..k] == m.chunks[..k];
    }
  }

  /** Room for the chunk is there, and storing it extends the payload. */
  lemma StoreGrows(v: RecvView, open: Option<Msg>, h: Header, got: seq<byte>, checked: seq<byte>, data: seq<byte>)
    requires MidFrame(v, open, h, got, checked) && |got| + |data| <= h.len
    requires open.Some? ==> IsDataOpcode(open.value.opcode)
    ensures var w := CheckText(v, data);
      data != [] && Buffered(v.cfg, h.opcode) ==>
        Slot(w).chunks != [] && w.poff + |data| <= |Slot(w).chunks[|Slot(w).chunks| - 1]|
    ensures MidFrame(Store(CheckText(v, data), h, data), open, h, got + data, CheckedAfter(h, checked, data))
  {
    hide Utf8.Run, Utf8.Viable, TextSoFar, TextPart, CheckedAfter, Holds, Empty, Filling, JudgeHeader;
    hide Overwrite, Buffered;
    hide UsesSecond, Flatten;
    CheckTextRuns(v, open, h, got, checked, data);
    FillingGrows(v.cfg, open, h, got, checked, Slot(v), data, CheckedAfter(h, checked, data));
  }

  /** What a chunk that was taken leaves behind. */
  lemma ChunkTaken(v: RecvView, open: Option<Msg>, h: Header, got: seq<byte>, checked: seq<byte>, data: seq<byte>)
    requires MidFrame(v, open, h, got, checked) && |got| + |data| <= h.len
    requires open.Some? ==> IsDataOpcode(open.value.opcode)
    ensures var w := CheckText(v, data);
      data != [] && Buffered(v.cfg, h.opcode) ==>
        Slot(w).chunks != [] && w.poff + |data| <= |Slot(w).chunks[|Slot(w).chunks| - 1]|
    ensures var w := CheckText(v, data);
      var x := Store(w, h, data);
      && MidFrame(x, open, h, got + data, CheckedAfter(h, checked, data)) && w.cfg == v.cfg
      && Slot(x).utf8 == Slot(w).utf8 && x.plen == h.len && x.poff == |got + data|
  {
    hide MidFrame, CheckedAfter;
    StoreGrows(v, open, h, got, checked, data);
    MidFrameOffsets(Store(CheckText(v, data), h, data), open, h, got + data, CheckedAfter(h, checked, data));
  }

  // -- A complete frame --------------------------------------------------

  /** wslay_event_imsg_reset, and back to slot 0. */
  function Reset(v: RecvView): RecvView {
    SetSlot(v, Slot(v).(opcode := NO_OPCODE, utf8 := Utf8.UTF8_ACCEPT, chunks := [])).(second := false)
  }

  function EndFrame(v: RecvView): RecvView { v.(plen := 0, poff := 0) }

  /** The data message open after a frame. */
  function NextOpen(open: Option<Msg>, h: Header, payload: seq<byte>): Option<Msg> {
    if IsControl(h.opcode) then open
    else if h.fin then None
    else Some(Msg(MessageOpcode(open, h), Before(open, h) + payload))
  }

  /** The message a final frame completes. */
  function Completed(open: Option<Msg>, h: Header, payload: seq<byte>): Msg {
    Msg(MessageOpcode(open, h), Before(open, h) + payload)
  }

  lemma FeedReceived(a: Asm, h: PrintableHeader, payload: seq<byte>)
    requires a.legal && InTurn(a.open, h.opcode) && WellFormed(h)
    ensures var b := Feed(a, Received(h, payload));
      && b.legal && b.open == NextOpen(a.open, h, payload)
      && b.out == a.out + if h.fin then [Completed(a.open, h, payload)] else []
  {
    assert [] + payload == payload;
    assert a.out + [] == a.out;
  }

  /** The two checks at the end of a frame are the verdict on its whole payload. */
  lemma EndChecks(v: RecvView, open: Option<Msg>, h: Header, payload: seq<byte>, checked: seq<byte>)
    requires MidFrame(v, open, h, payload, checked) && |payload| == h.len
    requires Slot(v).utf8 != Utf8.UTF8_REJECT && (open.Some? ==> IsDataOpcode(open.value.opcode))
    ensures var m, text := Slot(v), TextSoFar(open, h, payload, checked);
      && Utf8.Viable(text)
      && ((m.opcode == TEXT || m.opcode == CLOSE) && m.utf8 != Utf8.UTF8_ACCEPT <==> !Utf8.WellFormed(text))
  {
    hide Utf8.Run, Utf8.Viable, Utf8.WellFormed, Holds, Flatten, JudgeHeader;
    Utf8.RejectsUnviable(TextSoFar(open, h, payload, checked));
    Utf8.AcceptsWellFormed(TextSoFar(open, h, payload, checked));
    EmptyRun();
  }

  /** The chunks of a complete message hold exactly its payload. */
  lemma FlattenedPayload(v: RecvView, open: Option<Msg>, h: Header, payload: seq<byte>, checked: seq<byte>)
    requires MidFrame(v, open, h, payload, checked) && |payload| == h.len && Buffered(v.cfg, h.opcode)
    ensures Flatten(Slot(v).chunks) == Before(open, h) + payload
    ensures Slot(v).msgLength == |Before(open, h) + payload|
  {
    hide Utf8.Run, Utf8.Viable, TextSoFar, Holds, JudgeHeader, Before, Flatten;
    var chunks := Slot(v).chunks;
    if h.len == 0 {
      assert Before(open, h) + payload == Before(open, h);
    } else {
      var k := |chunks| - 1;
      assert chunks[k][..|payload|] == chunks[k];
      FlattenSnoc(chunks[..k], chunks[k]);
      assert chunks == chunks[..k] + [chunks[k]];
    }
  }

  lemma FinalEnds(v: RecvView, open: Option<Msg>, h: Header, payload: seq<byte>, checked: seq<byte>)
    requires MidFrame(v, open, h, payload, checked) && |payload| == h.len && h.fin
    ensures Boundary(EndFrame(Reset(v)), NextOpen(open, h, payload))
  {
    hide Utf8.Run, TextSoFar, Flatten, JudgeContent;
  }

  lemma FragmentEnds(v: RecvView, open: Option<Msg>, h: Header, payload: seq<byte>, checked: seq<byte>)
    requires MidFrame(v, open, h, payload, checked) && |payload| == h.len && !h.fin && WellFormed(h)
    requires open.Some? ==> IsDataOpcode(open.value.opcode)
    ensures Boundary(EndFrame(v), NextOpen(open, h, payload))
  {
    hide Utf8.Run, Flatten;
    EmptyRun();
    if Buffered(v.cfg, h.opcode) {
      FlattenedPayload(v, open, h, payload, checked);
    }
  }

  // -- What the application sees -----------------------------------------

  /** Argument of the message callback: a data message comes without payload when it was not buffered. */
  datatype Delivery = Delivery(opcode: nat, payload: seq<byte>, status: nat)

  function Deliver(buffering: bool, m: Msg): Delivery {
    Delivery(m.opcode, if buffering || IsControl(m.opcode) then m.payload else [],
             if m.opcode == CLOSE then StatusOf(m.payload) else 0)
  }

  function Deliveries(buffering: bool, ms: seq<Msg>): (r: seq<Delivery>)
    ensures |r| == |ms|
  {
    seq(|ms|, i requires 0 <= i < |ms| => Deliver(buffering, ms[i]))
  }

  lemma DeliveriesSnoc(buffering: bool, ms: seq<Msg>, m: Msg)
    ensures Deliveries(buffering, ms + [m]) == Deliveries(buffering, ms) + [Deliver(buffering, m)]
  {
  }

  lemma DeliveriesGrow(buffering: bool, ms: seq<Msg>, ns: seq<Msg>)
    requires ms <= ns
    ensures Deliveries(buffering, ms) <= Deliveries(buffering, ns)
  {
    hide Deliver;
  }

  /** The payloads of the pings among ms. */
  function Pings(ms: seq<Msg>): seq<seq<byte>> {
    if ms == [] then []
    else if ms[|ms| - 1].opcode == PING then Pings(ms[..|ms| - 1]) + [ms[|ms| - 1].payload]
    else Pings(ms[..|ms| - 1])
  }

  lemma PingsSnoc(ms: seq<Msg>, m: Msg)
    ensures Pings(ms + [m]) == Pings(ms) + if m.opcode == PING then [m.payload] else []
  {
    assert (ms + [m])[..|ms|] == ms;
    assert Pings(ms) + [] == Pings(ms);
  }

  lemma {:induction false} PingsGrow(ms: seq<Msg>, ns: seq<Msg>)
    requires ms <= ns
    ensures Pings(ms) <= Pings(ns)
    decreases |ns|
  {
    hide *;
    if ms == ns {
    } else {
      var init := ns[..|ns| - 1];
      assert ms <= init && ns == init + [ns[|ns| - 1]];
      PingsGrow(ms, init);
      PingsSnoc(init, ns[|ns| - 1]);
    }
  }

  /** Why no more is read; pieces are the chunks in which the frame in question came. */
  datatype Stop =
    | Running
    | Refused(verdict: Verdict, h: Header, got: seq<byte>, checked: seq<byte>, pieces: seq<seq<byte>>)
    | Violated           // the byte stream itself is malformed
    | CloseTaken(payload: seq<byte>, pieces: seq<seq<byte>>)  // a Close was received and answered
    // a Close came when none could be queued any more
    | CloseUnanswered(h: Header, payload: seq<byte>, pieces: seq<seq<byte>>)
    | Failed(error: int)  // the recv callback failed with this error

  /** An accepted frame passed every test on its whole payload; a Close, that on its status. */
  ghost predicate FineFrame(cfg: Config, open: Option<Msg>, f: Frame) {
    && JudgeHeader(cfg, open, f.h) == Fine
    && (if f.h.opcode == CLOSE then |f.payload| >= 2 ==> ValidStatus(StatusOf(f.payload))
        else JudgeContent(open, f.h, f.payload, []) == Fine)
  }

  ghost predicate FineFrames(cfg: Config, fs: seq<Frame>) {
    forall i | 0 <= i < |fs| :: FineFrame(cfg, Assemble(fs[..i]).open, fs[i])
  }

  lemma FineFramesSnoc(cfg: Config, fs: seq<Frame>, f: Frame)
    requires FineFrames(cfg, fs) && FineFrame(cfg, Assemble(fs).open, f)
    ensures FineFrames(cfg, fs + [f])
  {
    hide FineFrame, Assemble;
    var gs := fs + [f];
    forall i | 0 <= i < |gs|
      ensures FineFrame(cfg, Assemble(gs[..i]).open, gs[i])
    {
      assert gs[..i] == fs[..i];
    }
  }

  /** The history of the receive half: everything about the frames processed so far. */
  ghost predicate History(cfg: Config, processed: seq<Frame>, delivered: seq<Delivery>, pongs: seq<seq<byte>>,
                          queueable: bool) {
    var a := Assemble(processed);
    && a.legal && FineFrames(cfg, processed)
    && delivered == Deliveries(cfg.buffering, a.out)
    && pongs <= Pings(a.out) && (queueable ==> pongs == Pings(a.out))
  }

  /**
   A refusal is what the verdict on the frame says, given the frames processed before it; a Close that could not be
   answered is a fine frame there.
   */
  ghost predicate StopOk(cfg: Config, processed: seq<Frame>, stop: Stop) {
    match stop
    case Refused(verdict, h, got, checked, pieces) =>
      && verdict != Fine && Judge(cfg, Assemble(processed).open, h, got, checked) == verdict
      && (JudgeHeader(cfg, Assemble(processed).open, h) == Fine ==> Pieces(h, got, checked, pieces))
    case CloseUnanswered(h, payload, _) =>
      Printable(h) && FineFrame(cfg, Assemble(processed).open, Received(h, payload))
    case _ => true
  }

  lemma RefusalOk(cfg: Config, processed: seq<Frame>, stop: Stop)
    requires stop.Refused? && stop.verdict != Fine
    requires Judge(cfg, Assemble(processed).open, stop.h, stop.got, stop.checked) == stop.verdict
    requires JudgeHeader(cfg, Assemble(processed).open, stop.h) == Fine ==>
      Pieces(stop.h, stop.got, stop.checked, stop.pieces)
    ensures StopOk(cfg, processed, stop)
  {
  }

  lemma NoRefusal(cfg: Config, processed: seq<Frame>, stop: Stop)
    requires !stop.Refused?
    requires stop.CloseUnanswered? ==>
      Printable(stop.h) && FineFrame(cfg, Assemble(processed).open, Received(stop.h, stop.payload))
    ensures StopOk(cfg, processed, stop)
  {
  }

  lemma JudgeWhole(cfg: Config, open: Option<Msg>, h: Header, payload: seq<byte>, checked: seq<byte>)
    requires JudgeHeader(cfg, open, h) == Fine
    ensures Judge(cfg, open, h, payload, checked) == JudgeContent(open, h, payload, checked)
  {
  }

  /** A Close that was not refused passed the check on what of it was checked. */
  ghost predicate CloseChecked(h: Header, payload: seq<byte>, pieces: seq<seq<byte>>) {
    h.opcode == CLOSE && Pieces(h, payload, CheckedOver(h, pieces), pieces) && Utf8.WellFormed(CheckedOver(h, pieces))
  }

  lemma FineClose(open: Option<Msg>, h: Header, payload: seq<byte>, checked: seq<byte>, pieces: seq<seq<byte>>)
    requires h.opcode == CLOSE && h.fin && |payload| == h.len && Pieces(h, payload, checked, pieces)
    requires JudgeContent(open, h, payload, checked) != Refuse(INVALID_DATA)
    ensures CloseChecked(h, payload, pieces)
  {
    hide Utf8.WellFormed, Utf8.Viable, CheckedOver;
  }

  /** A Close is the last frame processed, and then it was taken. */
  predicate CloseLast(processed: seq<Frame>, taken: bool) {
    forall i | 0 <= i < |processed| && processed[i].h.opcode == CLOSE :: taken && i == |processed| - 1
  }

  lemma CloseLastSnoc(processed: seq<Frame>, f: Frame, taken: bool)
    requires CloseLast(processed, false) && (f.h.opcode == CLOSE ==> taken)
    ensures CloseLast(processed + [f], taken)
  {
  }

  /** What has come of the frame under way is fine, as far as that does not depend on how a Close was cut up. */
  ghost predicate TailFine(cfg: Config, processed: seq<Frame>, tail: Tail) {
    tail.InPayload? && tail.got != [] ==>
      && JudgeHeader(cfg, Assemble(processed).open, tail.h) == Fine
      && (tail.h.opcode != CLOSE ==> JudgeContent(Assemble(processed).open, tail.h, tail.got, []) == Fine)
  }

  // -- What the library queues by itself ---------------------------------

  function PongMsgs(pongs: seq<seq<byte>>): (ms: seq<Msg>)
    ensures |ms| == |pongs|
  {
    seq(|pongs|, i requires 0 <= i < |pongs| => Msg(PONG, pongs[i]))
  }

  lemma PongMsgsSnoc(pongs: seq<seq<byte>>, p: seq<byte>)
    ensures PongMsgs(pongs + [p]) == PongMsgs(pongs) + [Msg(PONG, p)]
  {
  }

  /** The library queued a Close; nothing is queued behind it. */
  predicate Answered(log: seq<Logged>) {
    log != [] && log[|log| - 1].reply && log[|log| - 1].m.opcode == CLOSE
  }

  /** Payload of the Close that goes with the end of reading. */
  function AnswerTo(stop: Stop): seq<byte> {
    match stop
    case Refused(Refuse(code), _, _, _, _) => BigEndian(code, 2)
    case CloseTaken(payload, _) => if |payload| >= 2 then payload else []
    case _ => []
  }

  /** The library queued the pongs, and one Close when it stopped reading if it still could; nothing else. */
  predicate RepliesOk(log: seq<Logged>, pongs: seq<seq<byte>>, stop: Stop) {
    if Answered(log) then
      && !stop.Running? && !stop.CloseUnanswered? && (stop.Refused? ==> stop.verdict.Refuse?)
      && Replies(log) == PongMsgs(pongs) + [Msg(CLOSE, AnswerTo(stop))]
    else Replies(log) == PongMsgs(pongs) && !stop.CloseTaken?
  }

  lemma RepliesStart()
    ensures RepliesOk([], [], Running)
  {
  }

  lemma NotAnswered(log: seq<Logged>, pongs: seq<seq<byte>>)
    requires Replies(log) == PongMsgs(pongs)
    ensures !Answered(log)
  {
    if log != [] && log[|log| - 1].reply {
      assert log[|log| - 1].m == PongMsgs(pongs)[|pongs| - 1];
    }
  }

  /** Reading stops: with a Close of the library's own, or, when none could be queued, without. */
  lemma RepliesStop(log: seq<Logged>, pongs: seq<seq<byte>>, stop: Stop, answered: bool)
    requires RepliesOk(log, pongs, Running) && !stop.Running?
    requires if answered then !stop.CloseUnanswered? && (stop.Refused? ==> stop.verdict.Refuse?) else !stop.CloseTaken?
    ensures RepliesOk(if answered then log + [Logged(Msg(CLOSE, AnswerTo(stop)), true)] else log, pongs, stop)
  {
    RepliesSnoc(log, Logged(Msg(CLOSE, AnswerTo(stop)), true));
    NotAnswered(log, pongs);
  }

  lemma RepliesPong(log: seq<Logged>, pongs: seq<seq<byte>>, p: seq<byte>)
    requires RepliesOk(log, pongs, Running)
    ensures RepliesOk(log + [Logged(Msg(PONG, p), true)], pongs + [p], Running)
  {
    RepliesSnoc(log, Logged(Msg(PONG, p), true));
    PongMsgsSnoc(pongs, p);
  }

  /** Whatever the application queues is no reply. */
  lemma RepliesApart(log: seq<Logged>, log': seq<Logged>, pongs: seq<seq<byte>>, stop: Stop)
    requires RepliesOk(log, pongs, stop) && Replies(log') == Replies(log)
    requires log' == log || (!Answered(log) && !Answered(log'))
    ensures RepliesOk(log', pongs, stop)
  {
  }

  /** What the receive function returns. */
  function RecvCode(stop: Stop, log: seq<Logged>): int {
    match stop
    case Running => 0
    case CloseTaken(_, _) => 0
    case CloseUnanswered(_, _, _) => 1
    case Refused(verdict, _, _, _, _) => if verdict.OutOfMemory? then -1 else if Answered(log) then 0 else 1
    case _ => if Answered(log) then ERR_CALLBACK_FAILURE else 1
  }

  /** Between two chunks the slots mirror the reassembler and the frame under way. */
  ghost predicate Mirrors(v: RecvView, processed: seq<Frame>, cur: FrameIn.Incoming, checked: seq<byte>) {
    var open := Assemble(processed).open;
    if FrameIn.GotSoFar(cur) == [] then Boundary(v, open) else MidFrame(v, open, cur.h, cur.got, checked)
  }

  /** One more frame processed; its message, if it completes one, was delivered. */
  lemma HistoryGrows(cfg: Config, processed: seq<Frame>, delivered: seq<Delivery>, pongs: seq<seq<byte>>,
                     queueable: bool,
                     h: PrintableHeader, payload: seq<byte>, newPongs: seq<seq<byte>>, queueable': bool)
    requires History(cfg, processed, delivered, pongs, queueable)
    requires WellFormed(h) && FineFrame(cfg, Assemble(processed).open, Received(h, payload))
    requires queueable' ==> queueable
    requires newPongs == if queueable && h.fin && Completed(Assemble(processed).open, h, payload).opcode == PING
                         then pongs + [Completed(Assemble(processed).open, h, payload).payload] else pongs
    ensures var open := Assemble(processed).open;
      History(cfg, processed + [Received(h, payload)],
              delivered + (if h.fin then [Deliver(cfg.buffering, Completed(open, h, payload))] else []),
              newPongs, queueable')
    ensures Assemble(processed + [Received(h, payload)]).open == NextOpen(Assemble(processed).open, h, payload)
  {
    hide Assemble, JudgeContent, Announced, FineFrames, Deliver, Pings, Completed, NextOpen, Feed;
    var a, f := Assemble(processed), Received(h, payload);
    AssembleSnoc(processed, f);
    FineFramesSnoc(cfg, processed, f);
    FeedReceived(a, h, payload);
    if h.fin {
      DeliveriesSnoc(cfg.buffering, a.out, Completed(a.open, h, payload));
      PingsSnoc(a.out, Completed(a.open, h, payload));
    } else {
      assert a.out + [] == a.out;
      assert delivered + [] == delivered;
    }
    hide Deliveries;
  }

  lemma HistoryStarts(cfg: Config)
    ensures History(cfg, [], [], [], true)
  {
  }

  const EMPTY_SLOT := IMsg(false, 0, NO_OPCODE, Utf8.UTF8_ACCEPT, [], 0)

  function InitialView(cfg: Config): RecvView { RecvView(cfg, EMPTY_SLOT, EMPTY_SLOT, false, 0, 0) }

  lemma InitialMirrors(cfg: Config)
    ensures Mirrors(InitialView(cfg), [], FrameIn.NoFrame, [])
  {
  }

  /** Once nothing may be queued any more, the answered pings stay a prefix of those received. */
  lemma HistoryFreezes(cfg: Config, processed: seq<Frame>, delivered: seq<Delivery>, pongs: seq<seq<byte>>)
    requires History(cfg, processed, delivered, pongs, true)
    ensures History(cfg, processed, delivered, pongs, false)
  {
  }

  /** What is flattened so far fits into what will be flattened. */
  lemma {:induction false} FlattenPrefix(chunks: seq<seq<byte>>, n: nat)
    requires n <= |chunks|
    ensures |Flatten(chunks[..n])| <= |Flatten(chunks)|
    decreases |chunks|
  {
    if n == |chunks| {
      assert chunks[..n] == chunks;
    } else {
      var init := chunks[..|chunks| - 1];
      FlattenPrefix(init, n);
      assert init[..n] == chunks[..n];
    }
  }

  lemma ReadStatus(payload: seq<byte>)
    ensures |payload| >= 2 ==> StatusOf(payload) == FromBigEndian(payload[..2]) < 0x1_0000
    ensures |payload| < 2 ==> StatusOf(payload) == 0
    ensures |payload| >= 2 && ValidStatus(StatusOf(payload)) ==>
      BigEndian(StatusOf(payload), 2) + payload[2..] == payload && StatusOf(payload) != 0
  {
    ClosePayloadEchoes(payload);
    if |payload| >= 2 {
      Pow256Values();
      FromBigEndianEncodes(payload[..2]);
    }
  }

  /** The echo of an accepted Close carries the payload received, or nothing if that held no status. */
  lemma ClosePayloadEchoes(payload: seq<byte>)
    ensures |payload| >= 2 && ValidStatus(StatusOf(payload)) ==>
      BigEndian(StatusOf(payload), 2) + payload[2..] == payload && StatusOf(payload) != 0
  {
    if |payload| >= 2 {
      FromBigEndianEncodes(payload[..2]);
      assert payload[..2] + payload[2..] == payload;
    }
  }

  lemma FinalUnlessData(h: Header)
    requires WellFormed(h) && !h.fin
    ensures h.opcode != CLOSE
  {
  }

  /** The last test on a complete frame: a Close must not carry a reserved status. */
  function StatusVerdict(h: Header, payload: seq<byte>): Verdict {
    if h.opcode == CLOSE && |payload| >= 2 && !ValidStatus(StatusOf(payload)) then Refuse(PROTOCOL_ERROR) else Fine
  }

  /** The last test on the text, and what then remains to be judged. */
  lemma EndVerdict(v: RecvView, open: Option<Msg>, h: Header, payload: seq<byte>, checked: seq<byte>)
    requires MidFrame(v, open, h, payload, checked) && |payload| == h.len
    requires Slot(v).utf8 != Utf8.UTF8_REJECT && (open.Some? ==> IsDataOpcode(open.value.opcode))
    ensures var m := Slot(v);
      JudgeContent(open, h, payload, checked) ==
        if m.fin && (m.opcode == TEXT || m.opcode == CLOSE) && m.utf8 != Utf8.UTF8_ACCEPT then Refuse(INVALID_DATA)
        else StatusVerdict(h, payload)
    ensures Judge(v.cfg, open, h, payload, checked) == JudgeContent(open, h, payload, checked)
    ensures h.opcode != CLOSE ==> JudgeContent(open, h, payload, []) == JudgeContent(open, h, payload, checked)
  {
    EndChecks(v, open, h, payload, checked);
    hide Utf8.Viable, Utf8.WellFormed, Utf8.Run, JudgeHeader, Holds, Flatten;
  }

  /** A chunk that makes the text hopeless is refused, whatever is still to come. */
  lemma TextVerdict(v: RecvView, open: Option<Msg>, h: Header, got: seq<byte>, checked: seq<byte>, data: seq<byte>)
    requires MidFrame(v, open, h, got, checked) && (open.Some? ==> IsDataOpcode(open.value.opcode))
    requires Slot(CheckText(v, data)).utf8 == Utf8.UTF8_REJECT
    ensures Judge(v.cfg, open, h, got + data, CheckedAfter(h, checked, data)) == Refuse(INVALID_DATA)
  {
    CheckTextRuns(v, open, h, got, checked, data);
    hide Utf8.Viable, Utf8.WellFormed, Utf8.Run, JudgeHeader, TextSoFar, CheckedAfter, CheckText;
  }

  /** A chunk that leaves the text alive, and more to come, is fine. */
  lemma TextGoesOn(v: RecvView, open: Option<Msg>, h: Header, got: seq<byte>, checked: seq<byte>, data: seq<byte>)
    requires MidFrame(v, open, h, got, checked) && (open.Some? ==> IsDataOpcode(open.value.opcode))
    requires Slot(CheckText(v, data)).utf8 != Utf8.UTF8_REJECT
    ensures |got + data| < h.len ==> JudgeContent(open, h, got + data, CheckedAfter(h, checked, data)) == Fine
  {
    hide Utf8.Viable, Utf8.WellFormed, Utf8.Run, JudgeHeader, TextSoFar, CheckedAfter;
    CheckTextRuns(v, open, h, got, checked, data);
    hide CheckText, MidFrame;
  }

  /** Whether a frame is buffered can be told from its message. */
  lemma BufferedKind(open: Option<Msg>, h: Header, cfg: Config)
    requires InTurn(open, h.opcode) && (open.Some? ==> IsDataOpcode(open.value.opcode))
    ensures Buffered(cfg, MessageOpcode(open, h)) == Buffered(cfg, h.opcode)
    ensures IsControl(MessageOpcode(open, h)) == IsControl(h.opcode) && (IsControl(h.opcode) ==> Before(open, h) == [])
  {
  }

  lemma AcceptedFrame(cfg: Config, open: Option<Msg>, h: PrintableHeader, payload: seq<byte>)
    requires JudgeHeader(cfg, open, h) == Fine && (open.Some? ==> IsDataOpcode(open.value.opcode))
    ensures MessageOpcode(open, h) == CLOSE <==> h.opcode == CLOSE
    ensures MessageOpcode(open, h) == PING ==> IsControl(h.opcode) && Completed(open, h, payload).payload == payload
    ensures Completed(open, h, payload).opcode == MessageOpcode(open, h)
    ensures
      (if h.opcode == CLOSE then |payload| >= 2 ==> ValidStatus(StatusOf(payload))
       else JudgeContent(open, h, payload, []) == Fine)
      ==> FineFrame(cfg, open, Received(h, payload))
  {
    hide JudgeContent, Announced, StatusOf, ValidStatus;
    assert [] + payload == payload;
  }

  /** What is handed to the message callback is the message the final frame completes. */
  lemma DeliveryMeant(cfg: Config, open: Option<Msg>, h: Header, payload: seq<byte>,
                      opcode: nat, msg: seq<byte>, status: nat)
    requires JudgeHeader(cfg, open, h) == Fine && (open.Some? ==> IsDataOpcode(open.value.opcode))
    requires opcode == MessageOpcode(open, h)
    requires msg == (if Buffered(cfg, h.opcode) then Before(open, h) + payload else [])
    requires status == if opcode == CLOSE then StatusOf(payload) else 0
    ensures Delivery(opcode, msg, status) == Deliver(cfg.buffering, Completed(open, h, payload))
    ensures Completed(open, h, payload).opcode == opcode
    ensures IsControl(h.opcode) ==> Completed(open, h, payload).payload == payload
  {
    BufferedKind(open, h, cfg);
    assert [] + payload == payload;
    hide Announced;
  }

  lemma MidFrameKind(v: RecvView, open: Option<Msg>, h: Header, got: seq<byte>, checked: seq<byte>)
    requires MidFrame(v, open, h, got, checked) && (open.Some? ==> IsDataOpcode(open.value.opcode))
    ensures JudgeHeader(v.cfg, open, h) == Fine && Slot(v).opcode == MessageOpcode(open, h) && Slot(v).fin == h.fin
    ensures Buffered(v.cfg, MessageOpcode(open, h)) == Buffered(v.cfg, h.opcode)
    ensures IsControl(h.opcode) ==> Before(open, h) + got == got && Buffered(v.cfg, h.opcode)
  {
    hide Holds, Announced, Utf8.Run, TextSoFar, Flatten;
    BufferedKind(open, h, v.cfg);
    hide Before, MessageOpcode;
    assert [] + got == got;
  }

  lemma BadHeaderVerdict(cfg: Config, open: Option<Msg>, h: Header, got: seq<byte>, checked: seq<byte>)
    requires h.rsv != 0 || h.key.Some? != cfg.server
    ensures Judge(cfg, open, h, got, checked) == Refuse(PROTOCOL_ERROR)
  {
  }

  lemma MidFrameVerdict(v: RecvView, open: Option<Msg>, h: Header, got: seq<byte>, checked: seq<byte>)
    requires MidFrame(v, open, h, got, checked) && JudgeContent(open, h, got, checked) == Fine
    ensures h.opcode != CLOSE ==> Judge(v.cfg, open, h, got, []) == Fine
  {
    hide Utf8.Viable, Utf8.WellFormed, Filling, Holds, Announced;
  }

  /** The slot and the offsets tell exactly whether a chunk starts a frame. */
  lemma FrameStarts(v: RecvView, processed: seq<Frame>, before: FrameIn.Incoming, checked: seq<byte>)
    requires Mirrors(v, processed, before, checked)
    ensures (FrameIn.GotSoFar(before) == []) ==> v.plen == 0 && v.poff == 0 && !v.second
    ensures (FrameIn.GotSoFar(before) != []) ==> v.poff != 0 && Slot(v).opcode != NO_OPCODE
    ensures (FrameIn.GotSoFar(before) == []) ==> Mirrors(v, processed, FrameIn.NoFrame, checked)
  {
    if FrameIn.GotSoFar(before) != [] {
      OpenIsData(processed);
      hide Assemble;
      MidFrameKind(v, Assemble(processed).open, before.h, before.got, checked);
      hide Filling, Holds;
    }
  }

  lemma MidFrameOffsets(v: RecvView, open: Option<Msg>, h: Header, got: seq<byte>, checked: seq<byte>)
    requires MidFrame(v, open, h, got, checked)
    ensures v.plen == h.len && v.poff == |got|
  {
  }

  // -- What the tests amount to ------------------------------------------

  /** What may be said of every message handed to the application. */
  ghost predicate MessageOk(cfg: Config, m: Msg) {
    && (m.opcode == TEXT ==> Utf8.WellFormed(m.payload))
    && (m.opcode == CLOSE && |m.payload| >= 2 ==> ValidStatus(StatusOf(m.payload)))
    && (if IsControl(m.opcode) then |m.payload| <= 125 else cfg.buffering ==> |m.payload| <= cfg.maxLength)
  }

  ghost predicate OpenOk(cfg: Config, open: Option<Msg>) {
    open.Some? ==>
      && IsDataOpcode(open.value.opcode) && (open.value.opcode == TEXT ==> Utf8.Viable(open.value.payload))
      && (cfg.buffering ==> |open.value.payload| <= cfg.maxLength)
  }

  /** The tests on one frame carry over from the message so far to the message with it. */
  lemma FrameKeepsOk(cfg: Config, open: Option<Msg>, h: PrintableHeader, payload: seq<byte>)
    requires FineFrame(cfg, open, Received(h, payload)) && WellFormed(h) && |payload| == h.len && OpenOk(cfg, open)
    ensures h.fin ==> MessageOk(cfg, Completed(open, h, payload))
    ensures OpenOk(cfg, NextOpen(open, h, payload))
  {
    hide Utf8.WellFormed, Utf8.Viable;
    BufferedKind(open, h, cfg);
    assert [] + payload == payload;
  }

  /**
   However a text was cut into frames and chunks, and whatever control frames came in between: what is delivered
   as text is well-formed text, no message is longer than allowed, and no Close carries a reserved status.
   */
  lemma {:induction false} AllDeliveredOk(cfg: Config, fs: seq<Frame>)
    requires FineFrames(cfg, fs) && AllFaithful(fs) && Assemble(fs).legal
    ensures forall i | 0 <= i < |Assemble(fs).out| :: MessageOk(cfg, Assemble(fs).out[i])
    ensures OpenOk(cfg, Assemble(fs).open)
    decreases |fs|
  {
    hide *;
    if fs == [] {
      NothingAssembled(cfg);
    } else {
      var init, f := fs[..|fs| - 1], fs[|fs| - 1];
      var a := Assemble(init);
      assert fs == init + [f];
      AssembleSnoc(init, f);
      AssembleGrows(init, fs);
      FineFramesInit(cfg, fs);
      AllFaithfulSplit(fs);
      AllDeliveredOk(cfg, init);
      FineInTurn(cfg, a.open, f);
      FeedReceived(a, f.h, f.payload);
      FrameKeepsOk(cfg, a.open, f.h, f.payload);
    }
  }

  lemma NothingAssembled(cfg: Config)
    ensures Assemble([]).out == [] && OpenOk(cfg, Assemble([]).open)
  {
  }

  lemma FineInTurn(cfg: Config, open: Option<Msg>, f: Frame)
    requires FineFrame(cfg, open, f) && Faithful(f)
    ensures InTurn(open, f.h.opcode) && WellFormed(f.h) && |f.payload| == f.h.len && f == Received(f.h, f.payload)
  {
  }

  lemma FineFramesInit(cfg: Config, fs: seq<Frame>)
    requires FineFrames(cfg, fs) && fs != []
    ensures FineFrames(cfg, fs[..|fs| - 1]) && FineFrame(cfg, Assemble(fs[..|fs| - 1]).open, fs[|fs| - 1])
  {
    hide FineFrame, Assemble;
    var init := fs[..|fs| - 1];
    forall i | 0 <= i < |init|
      ensures FineFrame(cfg, Assemble(init[..i]).open, init[i])
    {
      assert init[..i] == fs[..i];
    }
  }

  /** With a limit of at most 2^63 the 64-bit length never wraps: the size test is the comparison it is meant to be. */
  lemma NoWrap(cfg: Config, open: Option<Msg>, h: PrintableHeader)
    requires cfg.maxLength <= MAX_PAYLOAD && OpenOk(cfg, open)
    ensures Announced(cfg, open, h) < COUNTER_LIMIT
    ensures JudgeHeader(cfg, open, h) != OutOfMemory
    ensures JudgeHeader(cfg, open, h) == Refuse(TOO_BIG) <==>
      h.rsv == 0 && h.key.Some? == cfg.server && InTurn(open, h.opcode) && Announced(cfg, open, h) > cfg.maxLength
  {
  }

  // -- The reason of a Close ---------------------------------------------

  lemma {:induction false} CheckedLength(h: Header, chunks: seq<seq<byte>>)
    requires h.opcode == CLOSE && forall i | 0 <= i < |chunks| :: chunks[i] != []
    ensures |CheckedOver(h, chunks)| <= |Flatten(chunks)|
    ensures |Flatten(chunks)| >= 2 ==> |CheckedOver(h, chunks)| <= |Flatten(chunks)| - 2
    ensures |chunks| >= 2 && |Flatten(chunks)| > 2 ==> |CheckedOver(h, chunks)| < |Flatten(chunks)| - 2
    ensures |chunks| == 1 ==> Flatten(chunks) == chunks[0] && CheckedOver(h, chunks) == TextPart(CLOSE, chunks[0])
    decreases |chunks|
  {
    if chunks != [] {
      var init, last := chunks[..|chunks| - 1], chunks[|chunks| - 1];
      CheckedLength(h, init);
      if |chunks| == 1 {
        assert [] + last == last;
        assert [] + TextPart(CLOSE, last) == TextPart(CLOSE, last);
      }
    }
  }

  /**
   The text check of a Close starts over at each chunk: it sees the whole reason, and nothing else, exactly when
   the payload came in one chunk or has no reason.
   */
  lemma ReasonChecked(h: Header, chunks: seq<seq<byte>>)
    requires h.opcode == CLOSE && forall i | 0 <= i < |chunks| :: chunks[i] != []
    ensures CheckedOver(h, chunks) == TextPart(CLOSE, Flatten(chunks)) <==> |chunks| <= 1 || |Flatten(chunks)| <= 2
  {
    CheckedLength(h, chunks);
  }

  /** A Close in one chunk is refused for its text exactly when its reason is not well-formed text. */
  lemma CloseInOneChunk(open: Option<Msg>, h: PrintableHeader, payload: seq<byte>)
    requires h.opcode == CLOSE && h.fin && |payload| == h.len > 2
    ensures JudgeContent(open, h, payload, CheckedOver(h, [payload])) == Refuse(INVALID_DATA) <==>
      !Utf8.WellFormed(payload[2..])
  {
    hide Utf8.WellFormed, Utf8.Viable;
    CheckedLength(h, [payload]);
    if Utf8.WellFormed(payload[2..]) {
      WellFormedIsViable(payload[2..]);
    }
  }

  /** Status 1000 with the two-byte character U+00E9: refused when the reason comes one byte at a time. */
  lemma SplitReasonRefused(h: PrintableHeader)
    requires h == Header(true, 0, CLOSE, None, 4)
    ensures JudgeContent(None, h, [3, 232, 195, 169], CheckedOver(h, [[3, 232, 195, 169]])) == Fine
    ensures JudgeContent(None, h, [3, 232, 195, 169], CheckedOver(h, [[3, 232, 195], [169]])) == Refuse(INVALID_DATA)
  {
    hide Utf8.WellFormed, Utf8.Viable;
    Utf8.HalfCharacter();
    var whole: seq<byte>, a: seq<byte>, b: seq<byte> := [3, 232, 195, 169], [3, 232, 195], [169];
    assert whole[2..] == [195, 169] && StatusOf(whole) == 1000 by {
      var status: seq<byte> := [3, 232];
      assert whole[..2] == status && status[..1] == [3] && FromBigEndian(status[..1]) == 3;
    }
    CloseInOneChunk(None, h, whole);
    assert [a][..0] == [] && CheckedOver(h, [a]) == [195];
    assert [a, b][..1] == [a] && CheckedOver(h, [a, b]) == [195];
  }

  /** Half a character is no text to be taken, and a whole one no text to be refused. */
  lemma HalfReason(h: Header, payload: seq<byte>, pieces: seq<seq<byte>>)
    requires CloseChecked(h, payload, pieces)
    ensures pieces != [[3, 232, 195], [169]]
  {
    hide Utf8.WellFormed, Utf8.Viable;
    Utf8.HalfCharacter();
    var a: seq<byte>, b: seq<byte> := [3, 232, 195], [169];
    assert [a][..0] == [] && CheckedOver(h, [a]) == [195];
    assert [a, b][..1] == [a] && CheckedOver(h, [a, b]) == [195];
  }

  lemma WholeReason(h: Header, got: seq<byte>, checked: seq<byte>, pieces: seq<seq<byte>>)
    requires h.opcode == CLOSE && JudgeContent(None, h, got, CheckedOver(h, pieces)) == Refuse(INVALID_DATA)
    ensures pieces != [[3, 232, 195, 169]]
  {
    hide Utf8.WellFormed, Utf8.Viable;
    Utf8.HalfCharacter();
    WellFormedIsViable([195, 169]);
    var a: seq<byte> := [3, 232, 195, 169];
    assert [a][..0] == [] && CheckedOver(h, [a]) == [195, 169];
  }

  /** The other way round: a reason that is no text passes when it comes behind the status in a chunk of its own. */
  lemma SplitReasonAccepted(h: PrintableHeader)
    requires h == Header(true, 0, CLOSE, None, 3)
    ensures JudgeContent(None, h, [3, 232, 255], CheckedOver(h, [[3, 232, 255]])) == Refuse(INVALID_DATA)
    ensures JudgeContent(None, h, [3, 232, 255], CheckedOver(h, [[3, 232], [255]])) == Fine
  {
    hide Utf8.WellFormed, Utf8.Viable;
    Utf8.NoSuchByte();
    var whole: seq<byte>, a: seq<byte>, b: seq<byte> := [3, 232, 255], [3, 232], [255];
    assert whole[2..] == [255] && StatusOf(whole) == 1000 by {
      var status: seq<byte> := [3, 232];
      assert whole[..2] == status && status[..1] == [3] && FromBigEndian(status[..1]) == 3;
    }
    CloseInOneChunk(None, h, whole);
    assert [a][..0] == [] && CheckedOver(h, [a]) == [];
    assert [a, b][..1] == [a] && CheckedOver(h, [a, b]) == [];
    WellFormedIsViable([]);
  }
}
