/** Messages, the sequential reassembler of section 5.4 of RFC 6455, and what a receiver must refuse. */
module Protocol {
  import opened Bytes
  import opened Headers
  import opened Stream
  import Utf8

  const CONTINUATION := 0
  const TEXT := 1
  const BINARY := 2
  const CLOSE := 8
  const PING := 9
  const PONG := 10

  /** A complete message, data or control. */
  datatype Msg = Msg(opcode: nat, payload: seq<byte>)

  predicate IsDataOpcode(opcode: nat) { opcode == TEXT || opcode == BINARY }

  predicate IsCtrlOpcode(opcode: nat) { opcode == CLOSE || opcode == PING || opcode == PONG }

  // -- The sequential reassembler ----------------------------------------

  /** Reassembly after some frames: the data message under way, the messages completed, and legality. */
  datatype Asm = Asm(open: Option<Msg>, out: seq<Msg>, legal: bool)

  const FRESH := Asm(None, [], true)

  /** More payload for a data message; fin completes it. */
  function Extend(a: Asm, m: Msg, fin: bool): Asm {
    if fin then Asm(None, a.out + [m], a.legal) else Asm(Some(m), a.out, a.legal)
  }

  /** Whether a frame with this opcode may come next. */
  predicate InTurn(open: Option<Msg>, opcode: nat) {
    IsCtrlOpcode(opcode) || (if open.Some? then opcode == CONTINUATION else IsDataOpcode(opcode))
  }

  /** One more frame: control frames stand alone, data frames start or continue the open message. */
  function Feed(a: Asm, f: Frame): Asm {
    if !a.legal || !InTurn(a.open, f.h.opcode) then a.(legal := false)
    else if IsControl(f.h.opcode) then a.(out := a.out + [Msg(f.h.opcode, f.payload)])
    else if a.open.Some? then Extend(a, Msg(a.open.value.opcode, a.open.value.payload + f.payload), f.h.fin)
    else Extend(a, Msg(f.h.opcode, f.payload), f.h.fin)
  }

  function Assemble(fs: seq<Frame>): Asm {
    if fs == [] then FRESH else Feed(Assemble(fs[..|fs| - 1]), fs[|fs| - 1])
  }

  lemma AssembleSnoc(fs: seq<Frame>, f: Frame)
    ensures Assemble(fs + [f]) == Feed(Assemble(fs), f)
  {
    assert (fs + [f])[..|fs|] == fs;
  }

  /** Only data messages are ever open. */
  lemma {:induction false} OpenIsData(fs: seq<Frame>)
    ensures Assemble(fs).open.Some? ==> IsDataOpcode(Assemble(fs).open.value.opcode)
    decreases |fs|
  {
    if fs != [] {
      OpenIsData(fs[..|fs| - 1]);
    }
  }

  /** The data messages among ms. */
  function Data(ms: seq<Msg>): seq<Msg> {
    if ms == [] then []
    else if IsControl(ms[|ms| - 1].opcode) then Data(ms[..|ms| - 1])
    else Data(ms[..|ms| - 1]) + [ms[|ms| - 1]]
  }

  lemma DataSnoc(ms: seq<Msg>, m: Msg)
    ensures Data(ms + [m]) == if IsControl(m.opcode) then Data(ms) else Data(ms) + [m]
  {
    assert (ms + [m])[..|ms|] == ms;
  }

  /** Reassembly is monotone: completed messages are never revised, illegality never forgiven. */
  lemma {:induction false} AssembleGrows(fs: seq<Frame>, gs: seq<Frame>)
    requires fs <= gs
    ensures Assemble(fs).out <= Assemble(gs).out
    ensures Assemble(gs).legal ==> Assemble(fs).legal
    decreases |gs|
  {
    if fs == gs {
    } else {
      hide Assemble;
      var init := gs[..|gs| - 1];
      assert fs <= init && gs == init + [gs[|gs| - 1]];
      AssembleGrows(fs, init);
      AssembleSnoc(init, gs[|gs| - 1]);
    }
  }

  /** The control messages among ms. */
  function Control(ms: seq<Msg>): seq<Msg> {
    if ms == [] then []
    else if IsControl(ms[|ms| - 1].opcode) then Control(ms[..|ms| - 1]) + [ms[|ms| - 1]]
    else Control(ms[..|ms| - 1])
  }

  lemma ControlSnoc(ms: seq<Msg>, m: Msg)
    ensures Control(ms + [m]) == if IsControl(m.opcode) then Control(ms) + [m] else Control(ms)
  {
    assert (ms + [m])[..|ms|] == ms;
  }

  // -- The log of control messages accepted for sending ------------------

  /** A control message that was queued; reply tells that the library queued it itself. */
  datatype Logged = Logged(m: Msg, reply: bool)

  function LogMsgs(log: seq<Logged>): (ms: seq<Msg>)
    ensures |ms| == |log|
  {
    seq(|log|, i requires 0 <= i < |log| => log[i].m)
  }

  lemma LogMsgsSnoc(log: seq<Logged>, e: Logged)
    ensures LogMsgs(log + [e]) == LogMsgs(log) + [e.m]
  {
  }

  /** The messages the library queued itself. */
  function Replies(log: seq<Logged>): seq<Msg> {
    if log == [] then []
    else if log[|log| - 1].reply then Replies(log[..|log| - 1]) + [log[|log| - 1].m]
    else Replies(log[..|log| - 1])
  }

  lemma RepliesSnoc(log: seq<Logged>, e: Logged)
    ensures Replies(log + [e]) == if e.reply then Replies(log) + [e.m] else Replies(log)
  {
    assert (log + [e])[..|log|] == log;
  }

  predicate EndsInClose(ms: seq<Msg>) { ms != [] && ms[|ms| - 1].opcode == CLOSE }

  /** The messages sent and those dropped, as they were queued: a Close sent overtook the dropped ones. */
  function Settled(sent: seq<Msg>, dropped: seq<Msg>): seq<Msg> {
    if EndsInClose(sent) then sent[..|sent| - 1] + dropped + [sent[|sent| - 1]] else sent + dropped
  }

  lemma {:induction false} DataGrows(ms: seq<Msg>, ns: seq<Msg>)
    requires ms <= ns
    ensures Data(ms) <= Data(ns)
    decreases |ns|
  {
    if ms == ns {
    } else {
      hide Data;
      var init := ns[..|ns| - 1];
      assert ms <= init && ns == init + [ns[|ns| - 1]];
      DataGrows(ms, init);
      DataSnoc(init, ns[|ns| - 1]);
    }
  }

  // -- What a receiver must refuse ---------------------------------------

  const PROTOCOL_ERROR := 1002
  const INVALID_DATA := 1007
  const TOO_BIG := 1009

  /** One more than the largest length a 64-bit counter holds. */
  const COUNTER_LIMIT := 0x1_0000_0000_0000_0000

  datatype Config = Config(server: bool, maxLength: nat, buffering: bool)

  datatype Verdict = Fine | Refuse(code: nat) | OutOfMemory

  /** Status codes that may appear on the wire (section 7.4 of RFC 6455). */
  predicate ValidStatus(code: nat) {
    (1000 <= code <= 1011 && code != 1004 && code != 1005 && code != 1006) || 3000 <= code <= 4999
  }

  /** Status of a Close payload; none in a payload of fewer than two bytes. */
  function StatusOf(payload: seq<byte>): nat {
    if |payload| >= 2 then FromBigEndian(payload[..2]) else 0
  }

  /** What the message already holds before a frame. */
  function Before(open: Option<Msg>, h: Header): seq<byte> {
    if h.opcode == CONTINUATION && open.Some? then open.value.payload else []
  }

  /** Opcode of the message a frame belongs to. */
  function MessageOpcode(open: Option<Msg>, h: Header): nat {
    if h.opcode == CONTINUATION && open.Some? then open.value.opcode else h.opcode
  }

  predicate Buffered(cfg: Config, opcode: nat) { cfg.buffering || IsControl(opcode) }

  /** Length the message will have with this frame, as far as it is counted. */
  function Announced(cfg: Config, open: Option<Msg>, h: Header): nat {
    if cfg.buffering then |Before(open, h)| + h.len else h.len
  }

  /** The part of a message that must be text: a text message, or the checked bytes of a Close. */
  function TextSoFar(open: Option<Msg>, h: Header, got: seq<byte>, checked: seq<byte>): seq<byte> {
    if h.opcode == CLOSE then checked
    else if MessageOpcode(open, h) == TEXT then Before(open, h) + got
    else []
  }

  /** Refused by its header alone. */
  function JudgeHeader(cfg: Config, open: Option<Msg>, h: Header): Verdict {
    if h.rsv != 0 || h.key.Some? != cfg.server then Refuse(PROTOCOL_ERROR)
    else if !InTurn(open, h.opcode) then Refuse(PROTOCOL_ERROR)
    else if Announced(cfg, open, h) % COUNTER_LIMIT > cfg.maxLength then Refuse(TOO_BIG)
    else if Announced(cfg, open, h) >= COUNTER_LIMIT then OutOfMemory
    else Fine
  }

  /** Refused for its content, of which got has arrived. */
  ghost function JudgeContent(open: Option<Msg>, h: Header, got: seq<byte>, checked: seq<byte>): Verdict {
    var text := TextSoFar(open, h, got, checked);
    if !Utf8.Viable(text) then Refuse(INVALID_DATA)
    else if |got| == h.len && h.fin && !Utf8.WellFormed(text) then Refuse(INVALID_DATA)
    else if |got| == h.len && h.opcode == CLOSE && |got| >= 2 && !ValidStatus(StatusOf(got)) then Refuse(PROTOCOL_ERROR)
    else Fine
  }

  /** The verdict on a frame of which got has arrived, coming after the frames that left open. */
  ghost function Judge(cfg: Config, open: Option<Msg>, h: Header, got: seq<byte>, checked: seq<byte>): Verdict {
    var v := JudgeHeader(cfg, open, h);
    if v == Fine then JudgeContent(open, h, got, checked) else v
  }

  lemma {:induction false} ViablePrefix(s: seq<byte>, t: seq<byte>)
    requires s <= t && Utf8.Viable(t)
    ensures Utf8.Viable(s)
  {
    hide Utf8.WellFormed;
    var u :| Utf8.WellFormed(t + u);
    assert t + u == s + (t[|s|..] + u);
  }

  lemma WellFormedIsViable(s: seq<byte>)
    requires Utf8.WellFormed(s)
    ensures Utf8.Viable(s)
  {
    hide Utf8.WellFormed;
    assert s + [] == s;
  }

  /** A frame that is fine as a whole is fine while it arrives. */
  lemma JudgePartial(cfg: Config, open: Option<Msg>, h: Header, got: seq<byte>, payload: seq<byte>)
    requires h.opcode != CLOSE && got <= payload && |payload| == h.len
    requires Judge(cfg, open, h, payload, []) == Fine
    ensures Judge(cfg, open, h, got, []) == Fine
  {
    hide Utf8.WellFormed, Utf8.Viable, JudgeHeader;
    ViablePrefix(TextSoFar(open, h, got, []), TextSoFar(open, h, payload, []));
    if got == payload {
    } else {
      assert |got| < h.len;
    }
  }
}
