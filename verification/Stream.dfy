/** Whole byte streams: frames one after the other, and the one-shot parser of such a stream. */
module Stream {
  import opened Bytes
  import opened Headers

  /** A frame; mask is the key its payload was really combined with on the wire. */
  datatype Frame = Frame(h: PrintableHeader, mask: Option<Key>, payload: seq<byte>)

  /** A frame that the peer reads as it was meant. */
  predicate Faithful(f: Frame) {
    WellFormed(f.h) && f.mask == f.h.key && |f.payload| == f.h.len
  }

  predicate AllFaithful(fs: seq<Frame>) {
    forall i | 0 <= i < |fs| :: Faithful(fs[i])
  }

  /** A received frame; the parser unmasks with the key of the header. */
  function Received(h: PrintableHeader, payload: seq<byte>): Frame {
    Frame(h, h.key, payload)
  }

  function FrameBytes(f: Frame): seq<byte> {
    EncodeHeader(f.h) + Mask(f.mask, f.payload, 0)
  }

  /** The bytes of a sequence of frames. */
  function StreamBytes(fs: seq<Frame>): seq<byte> {
    if fs == [] then [] else StreamBytes(fs[..|fs| - 1]) + FrameBytes(fs[|fs| - 1])
  }

  lemma StreamBytesNone()
    ensures StreamBytes([]) == []
  {
  }

  lemma StreamBytesSnoc(fs: seq<Frame>, f: Frame)
    ensures StreamBytes(fs + [f]) == StreamBytes(fs) + FrameBytes(f)
  {
    hide FrameBytes;
    assert (fs + [f])[..|fs|] == fs;
  }

  lemma {:induction false} StreamBytesConcat(a: seq<Frame>, b: seq<Frame>)
    ensures StreamBytes(a + b) == StreamBytes(a) + StreamBytes(b)
    decreases |b|
  {
    hide *;
    StreamBytesNone();
    if b == [] {
      assert a + b == a;
      assert StreamBytes(a) + [] == StreamBytes(a);
    } else {
      var c, f := b[..|b| - 1], b[|b| - 1];
      StreamBytesConcat(a, c);
      StreamBytesSnoc(a + c, f);
      StreamBytesSnoc(c, f);
      assert b == c + [f];
      assert a + b == (a + c) + [f];
      assert (StreamBytes(a) + StreamBytes(c)) + FrameBytes(f) == StreamBytes(a) + (StreamBytes(c) + FrameBytes(f));
    }
  }

  // -- The one-shot parser -----------------------------------------------

  /** What is left when no further frame is complete. */
  datatype Tail =
    | InHeader(raw: seq<byte>)
    | InPayload(h: PrintableHeader, got: seq<byte>)
    | Violation

  datatype Parse = Parse(frames: seq<Frame>, tail: Tail)

  function Prepend(fs: seq<Frame>, p: Parse): Parse {
    Parse(fs + p.frames, p.tail)
  }

  /** The frame whose header h, of n bytes, stands in front of s. */
  function FirstFrame(s: seq<byte>, h: PrintableHeader, n: nat): Frame
    requires n + h.len <= |s|
  {
    Received(h, Mask(h.key, s[n..n + h.len], 0))
  }

  function ParseStream(s: seq<byte>): Parse
    decreases |s|
  {
    match ParseHeader(s)
    case NeedMore => Parse([], InHeader(s))
    case Malformed => Parse([], Violation)
    case Got(h, n) =>
      EncodeDecode(s);
      if |s| < n + h.len then Parse([], InPayload(h, Mask(h.key, s[n..], 0)))
      else Prepend([FirstFrame(s, h, n)], ParseStream(s[n + h.len..]))
  }

  lemma FirstFrameOfPrinted(f: Frame, rest: seq<byte>)
    requires Faithful(f)
    ensures var s, n := FrameBytes(f) + rest, |EncodeHeader(f.h)|;
      && ParseHeader(s) == Got(f.h, n)
      && n + f.h.len <= |s|
      && FirstFrame(s, f.h, n) == f
      && s[n + f.h.len..] == rest
  {
    hide EncodeHeader, ParseHeader, Mask;
    var s, n := FrameBytes(f) + rest, |EncodeHeader(f.h)|;
    assert s == EncodeHeader(f.h) + (Mask(f.mask, f.payload, 0) + rest);
    DecodeEncode(f.h, Mask(f.mask, f.payload, 0) + rest);
    assert s[n..n + f.h.len] == Mask(f.mask, f.payload, 0);
    MaskCancels(f.h.key, f.payload, 0);
  }

  /** The parser peels off one faithful frame. */
  lemma ParseFrame(f: Frame, rest: seq<byte>)
    requires Faithful(f)
    ensures ParseStream(FrameBytes(f) + rest) == Prepend([f], ParseStream(rest))
  {
    hide EncodeHeader, ParseHeader, Mask, FrameBytes, FirstFrame, Prepend;
    FirstFrameOfPrinted(f, rest);
  }

  /** Whatever key was applied, the peer removes the one of the header. */
  lemma ReadAsHeaderSays(f: Frame)
    requires WellFormed(f.h) && |f.payload| == f.h.len
    ensures ParseStream(FrameBytes(f)) ==
      Parse([Received(f.h, Mask(f.h.key, Mask(f.mask, f.payload, 0), 0))], InHeader([]))
  {
    hide EncodeHeader, ParseHeader, Mask;
    var g := Received(f.h, Mask(f.h.key, Mask(f.mask, f.payload, 0), 0));
    MaskCancels(f.h.key, Mask(f.mask, f.payload, 0), 0);
    assert FrameBytes(g) == FrameBytes(f);
    hide FrameBytes;
    ParseFrame(g, []);
    assert FrameBytes(f) + [] == FrameBytes(f);
    assert ParseStream([]) == Parse([], InHeader([])) by { assert ParseHeader([]) == NeedMore by { EmptyHeader(); } }
  }

  lemma EmptyHeader()
    ensures ParseHeader([]) == NeedMore
  {
  }

  /**
   A frame without masking after masked ones still has the old key applied: its payload arrives as meant exactly
   when every key byte it reaches is zero.
   */
  lemma StaleKey(f: Frame, key: Key)
    requires WellFormed(f.h) && |f.payload| == f.h.len && f.h.key.None? && f.mask == Some(key)
    ensures ParseStream(FrameBytes(f)) == Parse([Received(f.h, f.payload)], InHeader([])) <==>
      forall i | 0 <= i < |f.payload| :: key[i % 4] == 0
  {
    ReadAsHeaderSays(f);
    MaskIsIdentity(key, f.payload);
    hide ParseStream, FrameBytes;
  }

  lemma PrependTwice(fs: seq<Frame>, f: Frame, p: Parse)
    ensures Prepend(fs, Prepend([f], p)) == Prepend(fs + [f], p)
  {
    assert fs + ([f] + p.frames) == (fs + [f]) + p.frames;
  }

  lemma PrependNone(p: Parse)
    ensures Prepend([], p) == p
  {
    assert [] + p.frames == p.frames;
  }

  lemma AllFaithfulSplit(fs: seq<Frame>)
    requires AllFaithful(fs) && fs != []
    ensures AllFaithful(fs[..|fs| - 1]) && Faithful(fs[|fs| - 1])
  {
  }

  /** Round trip of whole streams: the parser gives back the frames printed in front of any bytes. */
  lemma {:induction false} ParsePrinted(fs: seq<Frame>, rest: seq<byte>)
    requires AllFaithful(fs)
    ensures ParseStream(StreamBytes(fs) + rest) == Prepend(fs, ParseStream(rest))
    decreases |fs|
  {
    hide *;
    if fs == [] {
      StreamBytesNone();
      assert [] + rest == rest;
      PrependNone(ParseStream(rest));
    } else {
      var init, last := fs[..|fs| - 1], fs[|fs| - 1];
      AllFaithfulSplit(fs);
      ParsePrinted(init, FrameBytes(last) + rest);
      ParseFrame(last, rest);
      PrependTwice(init, last, ParseStream(rest));
      StreamBytesSnoc(init, last);
      assert fs == init + [last];
      assert (StreamBytes(init) + FrameBytes(last)) + rest == StreamBytes(init) + (FrameBytes(last) + rest);
    }
  }

  /** The bytes a tail stands for. */
  function TailBytes(t: Tail): seq<byte>
    requires !t.Violation?
  {
    match t
    case InHeader(raw) => raw
    case InPayload(h, got) => EncodeHeader(h) + Mask(h.key, got, 0)
  }

  /** The parses that print back to s. */
  predicate Prints(p: Parse, s: seq<byte>) {
    AllFaithful(p.frames) && (!p.tail.Violation? ==> StreamBytes(p.frames) + TailBytes(p.tail) == s)
  }

  lemma AllFaithfulCons(f: Frame, fs: seq<Frame>)
    requires AllFaithful(fs) && Faithful(f)
    ensures AllFaithful([f] + fs)
  {
  }

  lemma PrintsFrame(f: Frame, p: Parse, rest: seq<byte>)
    requires Faithful(f) && Prints(p, rest)
    ensures Prints(Prepend([f], p), FrameBytes(f) + rest)
  {
    hide StreamBytes, FrameBytes, TailBytes, AllFaithful;
    StreamBytesConcat([f], p.frames);
    StreamBytesNone();
    StreamBytesSnoc([], f);
    assert [] + [f] == [f];
    assert [] + FrameBytes(f) == FrameBytes(f);
    AllFaithfulCons(f, p.frames);
    if !p.tail.Violation? {
      assert (FrameBytes(f) + StreamBytes(p.frames)) + TailBytes(p.tail)
          == FrameBytes(f) + (StreamBytes(p.frames) + TailBytes(p.tail));
    }
  }

  lemma FirstFramePrints(s: seq<byte>, h: PrintableHeader, n: nat)
    requires n + h.len <= |s| && EncodeHeader(h) == s[..n] && WellFormed(h)
    ensures Faithful(FirstFrame(s, h, n))
    ensures FrameBytes(FirstFrame(s, h, n)) + s[n + h.len..] == s
  {
    hide EncodeHeader, Mask;
    MaskCancels(h.key, s[n..n + h.len], 0);
    assert (s[..n] + s[n..n + h.len]) + s[n + h.len..] == s;
  }

  lemma PartialFramePrints(s: seq<byte>, h: PrintableHeader, n: nat)
    requires n <= |s| && EncodeHeader(h) == s[..n]
    ensures Prints(Parse([], InPayload(h, Mask(h.key, s[n..], 0))), s)
  {
    hide EncodeHeader, Mask;
    MaskCancels(h.key, s[n..], 0);
    assert [] + (s[..n] + s[n..]) == s;
  }

  /** The other half of the bijection: whatever was accepted prints back to the same bytes. */
  lemma {:induction false} PrintParsed(s: seq<byte>)
    ensures Prints(ParseStream(s), s)
    decreases |s|
  {
    hide ParseHeader, EncodeHeader, Mask, Prepend, FirstFrame;
    match ParseHeader(s)
    case NeedMore =>
      assert [] + s == s;
    case Malformed =>
    case Got(h, n) =>
      hide Prints;
      EncodeDecode(s);
      if |s| < n + h.len {
        PartialFramePrints(s, h, n);
      } else {
        PrintParsed(s[n + h.len..]);
        FirstFramePrints(s, h, n);
        PrintsFrame(FirstFrame(s, h, n), ParseStream(s[n + h.len..]), s[n + h.len..]);
      }
  }

  lemma FirstFrameGrows(s: seq<byte>, t: seq<byte>, h: PrintableHeader, n: nat)
    requires n + h.len <= |s|
    ensures FirstFrame(s + t, h, n) == FirstFrame(s, h, n)
    ensures (s + t)[n + h.len..] == s[n + h.len..] + t
  {
    assert (s + t)[n..n + h.len] == s[n..n + h.len];
  }

  /** q knows at least the frames of p, and the violation if p found one. */
  predicate Extends(q: Parse, p: Parse) {
    p.frames <= q.frames && (p.tail.Violation? ==> q == p)
  }

  lemma PrependExtends(f: Frame, q: Parse, p: Parse)
    requires Extends(q, p)
    ensures Extends(Prepend([f], q), Prepend([f], p))
  {
  }

  /** More input never takes back a frame, nor a violation. */
  lemma {:induction false} ParseGrows(s: seq<byte>, t: seq<byte>)
    ensures Extends(ParseStream(s + t), ParseStream(s))
    decreases |s|
  {
    hide ParseHeader, EncodeHeader, Mask, Prepend, FirstFrame;
    if ParseHeader(s) != NeedMore {
      ParseHeaderExtends(s, t);
      if ParseHeader(s).Got? {
        var h, n := ParseHeader(s).h, ParseHeader(s).size;
        EncodeDecode(s);
        if |s| >= n + h.len {
          hide Extends;
          FirstFrameGrows(s, t, h, n);
          ParseGrows(s[n + h.len..], t);
          PrependExtends(FirstFrame(s, h, n), ParseStream(s[n + h.len..] + t), ParseStream(s[n + h.len..]));
        }
      }
    }
  }

  lemma {:induction false} TailIsShort(s: seq<byte>)
    ensures var t := ParseStream(s).tail; t.InPayload? ==> |t.got| < t.h.len
    decreases |s|
  {
    hide ParseHeader, EncodeHeader, Mask;
    if ParseHeader(s).Got? {
      var h, n := ParseHeader(s).h, ParseHeader(s).size;
      EncodeDecode(s);
      if |s| >= n + h.len {
        TailIsShort(s[n + h.len..]);
      }
    }
  }

  /** Frame k of a parse has header h and a payload that starts with got, whether or not it is complete. */
  predicate NextIn(p: Parse, k: nat, h: PrintableHeader, got: seq<byte>) {
    if k < |p.frames| then p.frames[k].h == h && got <= p.frames[k].payload
    else k == |p.frames| && p.tail.InPayload? && p.tail.h == h && got <= p.tail.got
  }

  /** Neither does more input change the header of a frame, or what arrived of its payload. */
  lemma {:induction false} NextInGrows(s: seq<byte>, t: seq<byte>, k: nat, h: PrintableHeader, got: seq<byte>)
    requires NextIn(ParseStream(s), k, h, got)
    ensures NextIn(ParseStream(s + t), k, h, got)
    decreases |s|
  {
    hide ParseHeader, EncodeHeader, Mask, Prepend, FirstFrame;
    if ParseHeader(s).Got? {
      ParseHeaderExtends(s, t);
      var h', n := ParseHeader(s).h, ParseHeader(s).size;
      EncodeDecode(s);
      if |s| >= n + h'.len {
        FirstFrameGrows(s, t, h', n);
        NextInUnprepend(FirstFrame(s, h', n), ParseStream(s[n + h'.len..]), k, h, got);
        if k > 0 {
          NextInGrows(s[n + h'.len..], t, k - 1, h, got);
        }
        NextInUnprepend(FirstFrame(s, h', n), ParseStream(s[n + h'.len..] + t), k, h, got);
      } else {
        PartialGrows(s, t, h', n, got);
      }
    }
  }

  lemma MaskPrefix(key: Option<Key>, a: seq<byte>, b: seq<byte>)
    requires a <= b
    ensures Mask(key, a, 0) <= Mask(key, b, 0)
  {
    hide Mask;
    assert b == a + b[|a|..];
    MaskConcat(key, a, b[|a|..], 0);
  }

  lemma PartialGrows(s: seq<byte>, t: seq<byte>, h: PrintableHeader, n: nat, got: seq<byte>)
    requires ParseHeader(s) == ParseHeader(s + t) == Got(h, n) && |s| < n + h.len && got <= Mask(h.key, s[n..], 0)
    ensures NextIn(ParseStream(s + t), 0, h, got)
  {
    hide ParseHeader, EncodeHeader, Mask;
    var u := s + t;
    if |u| < n + h.len {
      MaskPrefix(h.key, s[n..], u[n..]);
    } else {
      MaskPrefix(h.key, s[n..], u[n..n + h.len]);
      assert ParseStream(u) == Prepend([FirstFrame(u, h, n)], ParseStream(u[n + h.len..]));
    }
  }

  lemma NextInUnprepend(f: Frame, p: Parse, k: nat, h: PrintableHeader, got: seq<byte>)
    ensures NextIn(Prepend([f], p), k, h, got) <==>
      if k == 0 then f.h == h && got <= f.payload else NextIn(p, k - 1, h, got)
  {
  }

  lemma NextInPrepend(fs: seq<Frame>, p: Parse, h: PrintableHeader, got: seq<byte>)
    requires NextIn(p, 0, h, got)
    ensures NextIn(Prepend(fs, p), |fs|, h, got)
  {
  }

  lemma UnmaskedStart(key: Option<Key>, got: seq<byte>, body: seq<byte>)
    requires Mask(key, got, 0) <= body
    ensures got <= Mask(key, body, 0)
  {
    hide Mask;
    var rest := body[|got|..];
    assert body == Mask(key, got, 0) + rest;
    MaskConcat(key, Mask(key, got, 0), rest, 0);
    MaskCancels(key, got, 0);
  }

  /** A frame whose payload has begun to arrive is the next one of the parse. */
  lemma BodyComesNext(h: PrintableHeader, got: seq<byte>, more: seq<byte>)
    requires WellFormed(h) && |got| < h.len
    ensures NextIn(ParseStream(EncodeHeader(h) + (Mask(h.key, got, 0) + more)), 0, h, got)
  {
    hide ParseHeader, EncodeHeader, Mask;
    var n, masked := |EncodeHeader(h)|, Mask(h.key, got, 0) + more;
    var s := EncodeHeader(h) + masked;
    DecodeEncode(h, masked);
    if |s| < n + h.len {
      assert s[n..] == masked;
      UnmaskedStart(h.key, got, masked);
    } else {
      assert s[n..n + h.len] == masked[..h.len];
      UnmaskedStart(h.key, got, masked[..h.len]);
      assert ParseStream(s) == Prepend([FirstFrame(s, h, n)], ParseStream(s[n + h.len..]));
    }
  }

  lemma BodyInStream(frames: seq<Frame>, h: PrintableHeader, got: seq<byte>, more: seq<byte>)
    requires AllFaithful(frames) && WellFormed(h) && |got| < h.len
    ensures NextIn(ParseStream(StreamBytes(frames) + (EncodeHeader(h) + Mask(h.key, got, 0) + more)), |frames|, h, got)
  {
    hide *;
    var rest := EncodeHeader(h) + (Mask(h.key, got, 0) + more);
    assert EncodeHeader(h) + Mask(h.key, got, 0) + more == rest;
    ParsePrinted(frames, rest);
    BodyComesNext(h, got, more);
    NextInPrepend(frames, ParseStream(rest), h, got);
  }
}
